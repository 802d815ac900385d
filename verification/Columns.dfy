// The control plane's tables read column by column: which rows share a key,
// which rows a child needs, which rows a delete takes along, what is never
// planned.  Stated on the columns themselves, family by family.
module Columns {
  import opened Wrappers
  import opened Resolve
  import opened ControlPlane
  import opened ControlMerge
  import opened MergeLaws

  // ----- keys -----

  /** Two rows share a key when their identifying columns agree: both of a two-part family's, else the first. */
  lemma KeysByColumns(a: Row, b: Row)
    ensures KeyOf(a) == KeyOf(b) <==>
      && a.family == b.family && a.id == b.id
      && (a.family in {UserGrant, TeamGrant, TeamMember, BucketConfig, Part} ==> a.link == b.link)
  {
  }

  /** The last row of a key is the one a snapshot shows, and it shows no key without a row. */
  lemma {:induction false} LastRowShows(rows: seq<Row>, i: nat)
    requires i < |rows| && !(rows[i].family == ServerConfig && rows[i].id == "node_id")
    requires forall j :: i < j < |rows| ==> KeyOf(rows[j]) != KeyOf(rows[i])
    ensures KeyOf(rows[i]) in AliveView(rows) && AliveView(rows)[KeyOf(rows[i])] == rows[i]
    decreases |rows|
  {
    var n := |rows| - 1;
    if i < n {
      LastRowShows(rows[..n], i);
    }
  }

  lemma {:induction false} LastTombstoneShows(ts: seq<Tombstone>, i: nat)
    requires i < |ts| && ts[i].key.family != Part && !(ts[i].key.family == ServerConfig && ts[i].key.first == "node_id")
    requires forall j :: i < j < |ts| ==> ts[j].key != ts[i].key
    ensures ts[i].key in DeadView(ts) && DeadView(ts)[ts[i].key] == ts[i].deletedAt
    decreases |ts|
  {
    var n := |ts| - 1;
    if i < n {
      LastTombstoneShows(ts[..n], i);
    }
  }

  // ----- what is never planned -----

  /** No plan touches the node's own id: not as a row, not as a key, not as a tombstone. */
  lemma NodeIdNeverPlanned(plan: Plan, l: Node, r: Node, remoteRows: seq<Row>)
    requires ValidNode(l) && ValidNode(r) && PlanFollows(plan, l, r, remoteRows)
    ensures forall row :: row in plan.upserts ==> !(row.family == ServerConfig && row.id == "node_id")
    ensures forall k :: k in plan.deletes || k in plan.clears ==> !(k.family == ServerConfig && k.first == "node_id")
    ensures forall t :: t in plan.adopts ==> !(t.key.family == ServerConfig && t.key.first == "node_id")
  {
    forall k: EntityKey | k.family == ServerConfig && k.first == "node_id"
      ensures Resolution(l, r, k) == KeyResolution(false, false, false, None, false)
    {
      assert NodeLocal(k);
      UnknownKeyNeedsNothing(l, r, k);
    }
  }

  /** No plan deletes a part or marks one as deleted: parts go with their upload. */
  lemma PartsNeverDeleted(plan: Plan, l: Node, r: Node, remoteRows: seq<Row>)
    requires ValidNode(l) && ValidNode(r) && PlanFollows(plan, l, r, remoteRows)
    ensures forall k :: k in plan.deletes || k in plan.clears ==> k.family != Part
    ensures forall t :: t in plan.adopts ==> t.key.family != Part
  {
    forall k: EntityKey | k.family == Part
      ensures !WantsDelete(l, r, k) && !WantsClear(l, r, k) && Resolution(l, r, k).adoptTombstoneAt.None?
    {
      PartResolves(l, r, k);
    }
  }

  /** A part without an instant never replaces one. */
  lemma UnstampedPartLoses(l: Node, r: Node, row: Row)
    requires WantsPart(l, r, row) && row.stamp == None
    ensures KeyOf(row) !in l.alive
  {
  }

  // ----- what a child row needs -----

  function UserKey(id: string): EntityKey { EntityKey(User, id, "") }
  function TeamKey(id: string): EntityKey { EntityKey(Team, id, "") }
  function GrantKey(id: string): EntityKey { EntityKey(Grant, id, "") }
  function BucketKey(id: string): EntityKey { EntityKey(Bucket, id, "") }
  function UploadKey(id: string): EntityKey { EntityKey(Upload, id, "") }

  /** The rows a child's columns refer to resolve alive. */
  predicate OwnersAlive(l: Node, r: Node, row: Row) {
    match row.family
    case UserGrant => Resolution(l, r, UserKey(row.id)).alive && Resolution(l, r, GrantKey(row.link)).alive
    case TeamGrant => Resolution(l, r, TeamKey(row.id)).alive && Resolution(l, r, GrantKey(row.link)).alive
    case TeamMember => Resolution(l, r, TeamKey(row.id)).alive && Resolution(l, r, UserKey(row.link)).alive
    case BucketConfig => Resolution(l, r, BucketKey(row.id)).alive
    case BucketTags => Resolution(l, r, BucketKey(row.id)).alive
    case Part => Resolution(l, r, UploadKey(row.id)).alive
    case _ => true
  }

  /** A row is adopted exactly when it wins under its key and every row its columns refer to is alive. */
  lemma UpsertByColumns(l: Node, r: Node, row: Row)
    ensures WantsUpsert(l, r, row) <==>
      && KeyOf(row) in r.alive && r.alive[KeyOf(row)] == row
      && Resolution(l, r, KeyOf(row)).upsertFromRemote && OwnersAlive(l, r, row)
  {
    assert (forall p :: p in Parents(row) ==> Resolution(l, r, p).alive) <==> OwnersAlive(l, r, row) by {
      match row.family
      case UserGrant => assert Parents(row) == {UserKey(row.id), GrantKey(row.link)};
      case TeamGrant => assert Parents(row) == {TeamKey(row.id), GrantKey(row.link)};
      case TeamMember => assert Parents(row) == {TeamKey(row.id), UserKey(row.link)};
      case BucketConfig => assert Parents(row) == {BucketKey(row.id)};
      case BucketTags => assert Parents(row) == {BucketKey(row.id)};
      case Part => assert Parents(row) == {UploadKey(row.id)};
      case _ => assert Parents(row) == {};
    }
  }

  /** Every row a plan adopts has all the rows its columns refer to. */
  lemma PlanByColumns(plan: Plan, l: Node, r: Node, remoteRows: seq<Row>)
    requires PlanFollows(plan, l, r, remoteRows)
    ensures forall row :: row in plan.upserts ==> OwnersAlive(l, r, row)
  {
    forall row | row in plan.upserts ensures OwnersAlive(l, r, row) {
      UpsertByColumns(l, r, row);
    }
  }

  /** The rows a child's columns refer to are there. */
  predicate HasOwners(n: Node, row: Row) {
    match row.family
    case UserGrant => UserKey(row.id) in n.alive && GrantKey(row.link) in n.alive
    case TeamGrant => TeamKey(row.id) in n.alive && GrantKey(row.link) in n.alive
    case TeamMember => TeamKey(row.id) in n.alive && UserKey(row.link) in n.alive
    case BucketConfig => BucketKey(row.id) in n.alive
    case BucketTags => BucketKey(row.id) in n.alive
    case Part => UploadKey(row.id) in n.alive
    case _ => true
  }

  ghost predicate AllOwned(n: Node) {
    forall k :: k in n.alive ==> HasOwners(n, n.alive[k])
  }

  lemma OwnersAreParents(n: Node, row: Row)
    ensures HasOwners(n, row) <==> forall p :: p in Parents(row) ==> p in n.alive
  {
    match row.family
    case UserGrant => assert Parents(row) == {UserKey(row.id), GrantKey(row.link)};
    case TeamGrant => assert Parents(row) == {TeamKey(row.id), GrantKey(row.link)};
    case TeamMember => assert Parents(row) == {TeamKey(row.id), UserKey(row.link)};
    case BucketConfig => assert Parents(row) == {BucketKey(row.id)};
    case BucketTags => assert Parents(row) == {BucketKey(row.id)};
    case Part => assert Parents(row) == {UploadKey(row.id)};
    case _ => assert Parents(row) == {};
  }

  /**
   * Referential integrity, column by column: after a merge with the documented
   * cascades every attachment has its user or team and its grant, every
   * membership its team and user, every config and tag set its bucket, every
   * part its upload.
   */
  lemma IntegrityByColumn(l: Node, r: Node)
    requires ValidNode(l) && ValidNode(r) && AllOwned(l)
    ensures AllOwned(Merged(Documented, l, r))
  {
    OwnedIsClosed(l);
    IntegrityKept(l, r);
    OwnedIsClosed(Merged(Documented, l, r));
  }

  lemma OwnedIsClosed(n: Node)
    ensures AllOwned(n) <==> Closed(n)
  {
    forall k | k in n.alive ensures HasOwners(n, n.alive[k]) <==> forall p :: p in Parents(n.alive[k]) ==> p in n.alive {
      OwnersAreParents(n, n.alive[k]);
    }
  }

  // ----- what a delete takes along -----

  /** The rows whose columns name the deleted row, as the cascade reads them. */
  predicate GoesWith(c: Cascade, row: Row, k: EntityKey) {
    k.second == "" &&
    match k.family
    case User =>
      || (row.family == UserGrant && row.id == k.first) || (row.family == TeamMember && row.link == k.first)
      || (c == AsStored && row.family == Credential && row.link == k.first)
    case Team => (row.family == TeamGrant || row.family == TeamMember) && row.id == k.first
    case Grant => (row.family == UserGrant || row.family == TeamGrant) && row.link == k.first
    case Bucket => (row.family == BucketTags || (c == Documented && row.family == BucketConfig)) && row.id == k.first
    case Upload => row.family == Part && row.id == k.first
    case _ => false
  }

  /** Deleting a row takes away exactly that row and the rows that name it. */
  lemma RemoveByColumns(c: Cascade, n: Node, k: EntityKey, x: EntityKey)
    ensures x in Exec(c, n, Remove(k)).alive <==> x in n.alive && x != k && !GoesWith(c, n.alive[x], k)
    ensures x in Exec(c, n, Remove(k)).alive ==> Exec(c, n, Remove(k)).alive[x] == n.alive[x]
    ensures Exec(c, n, Remove(k)).dead == n.dead
  {
    if x in n.alive {
      assert Drags(c, n.alive[x], k) <==> GoesWith(c, n.alive[x], k);
    }
  }

  /** Adopting tombstones in any order, and any of them twice, keeps the latest of each key. */
  lemma AdoptKeepsLatest(c: Cascade, n: Node, s: Tombstone, t: Tombstone)
    ensures Exec(c, Exec(c, n, Adopt(s)), Adopt(t)) == Exec(c, Exec(c, n, Adopt(t)), Adopt(s))
    ensures Exec(c, Exec(c, n, Adopt(s)), Adopt(s)) == Exec(c, n, Adopt(s))
    ensures s.key in Exec(c, n, Adopt(s)).dead && Exec(c, n, Adopt(s)).dead[s.key] >= s.deletedAt
    ensures s.key in n.dead ==> Exec(c, n, Adopt(s)).dead[s.key] >= n.dead[s.key]
  {
  }

  /** The identity store holds the accounts, their attachments and the server configuration. */
  lemma StoresByFamily(f: Family)
    ensures Identity(f) <==> f in {Credential, User, Team, Grant, UserGrant, TeamGrant, TeamMember, ServerConfig}
  {
  }
}
