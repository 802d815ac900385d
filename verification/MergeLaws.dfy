// Laws of one control-plane merge: what it leaves under each key, referential
// integrity, and when a second merge with the same peer has nothing to do.
module MergeLaws {
  import opened Wrappers
  import opened Resolve
  import opened ControlPlane
  import opened ControlMerge

  /** Families whose rows have no parents to wait for. */
  predicate Unfiltered(f: Family) {
    f.Credential? || f.User? || f.Team? || f.Grant? || f.Bucket? || f.ServerConfig? || f.Upload?
  }

  /** Unfiltered families that no cascade touches either. */
  predicate Free(c: Cascade, f: Family) {
    Unfiltered(f) && (c.AsStored? ==> !f.Credential?)
  }

  /** The merge read at one key. */
  lemma MergedAt(c: Cascade, l: Node, r: Node, k: EntityKey)
    ensures RowAt(Merged(c, l, r), k) == if Survives(c, l, r, k) then Candidate(l, r, k) else None
    ensures DeadAt(Merged(c, l, r), k) == Outcome(MarkAt(l, k), MarkAt(r, k)).dead
  {
  }

  lemma FreeRow(c: Cascade, row: Row, p: EntityKey)
    requires Free(c, row.family)
    ensures Parents(row) == {} && !Drags(c, row, p)
  {
  }

  lemma FreeSurvives(c: Cascade, l: Node, r: Node, k: EntityKey)
    requires ValidNode(l) && ValidNode(r) && Free(c, k.family)
    ensures Survives(c, l, r, k) == Candidate(l, r, k).Some?
    ensures k in r.alive ==> WantsUpsert(l, r, r.alive[k]) == Resolution(l, r, k).upsertFromRemote
  {
    if k in r.alive {
      FreeRow(c, r.alive[k], k);
    }
    if Candidate(l, r, k).Some? && Dragged(c, l, r, Candidate(l, r, k).value) {
      var p :| WantsDelete(l, r, p) && Drags(c, Candidate(l, r, k).value, p);
      FreeRow(c, Candidate(l, r, k).value, p);
    }
  }

  /** The wanted row from the two rows, the resolution, and whether the parents are alive. */
  function Wanted(a: Option<Row>, b: Option<Row>, res: KeyResolution, parents: bool): Option<Row> {
    if b.Some? && res.upsertFromRemote && parents then b else if res.deleteLocal then None else a
  }

  ghost predicate ParentsAlive(l: Node, r: Node, x: EntityKey) {
    x in r.alive ==> forall p :: p in Parents(r.alive[x]) ==> Resolution(l, r, p).alive
  }

  lemma CandidateIsWanted(l: Node, r: Node, x: EntityKey)
    requires ValidNode(r)
    ensures Candidate(l, r, x) == Wanted(RowAt(l, x), RowAt(r, x), Resolution(l, r, x), ParentsAlive(l, r, x))
  {
  }

  function StampOf(o: Option<Row>): Option<Time> {
    if o.Some? then Some(At(o.value)) else None
  }

  /** The row the merge wants under `k`, if any, is not taken away with a parent. */
  ghost predicate Undragged(c: Cascade, l: Node, r: Node, k: EntityKey) {
    Candidate(l, r, k).Some? ==> !Dragged(c, l, r, Candidate(l, r, k).value)
  }

  lemma FreeUndragged(c: Cascade, l: Node, r: Node, k: EntityKey)
    requires ValidNode(l) && ValidNode(r) && Free(c, k.family)
    ensures Undragged(c, l, r, k)
  {
    FreeSurvives(c, l, r, k);
  }

  /** Where no cascade interferes, a merge of an unfiltered key is the join of the two nodes' marks. */
  lemma MergedMark(c: Cascade, l: Node, r: Node, k: EntityKey)
    requires ValidNode(l) && ValidNode(r) && Unfiltered(k.family) && Undragged(c, l, r, k)
    ensures MarkAt(Merged(c, l, r), k) == Outcome(MarkAt(l, k), MarkAt(r, k))
    ensures RowAt(Merged(c, l, r), k) in {None, RowAt(l, k), RowAt(r, k)}
  {
    MergedAt(c, l, r, k);
    if k in r.alive {
      assert Parents(r.alive[k]) == {};
    }
  }

  /** After a merge a key shows at most one of row and tombstone, and any row is one of the two nodes'. */
  lemma MergedIsCanonical(c: Cascade, l: Node, r: Node, k: EntityKey)
    requires ValidNode(r)
    ensures Canonical(MarkAt(Merged(c, l, r), k))
    ensures RowAt(Merged(c, l, r), k) in {None, RowAt(l, k), RowAt(r, k)}
  {
    MergedAt(c, l, r, k);
  }

  lemma FreeMergedMark(c: Cascade, l: Node, r: Node, k: EntityKey)
    requires ValidNode(l) && ValidNode(r) && Free(c, k.family)
    ensures MarkAt(Merged(c, l, r), k) == Outcome(MarkAt(l, k), MarkAt(r, k))
  {
    FreeUndragged(c, l, r, k);
    MergedMark(c, l, r, k);
  }

  /** A parent is present after the merge exactly when it resolved alive. */
  lemma ParentPresence(c: Cascade, l: Node, r: Node, p: EntityKey)
    requires ValidNode(l) && ValidNode(r) && Free(c, p.family)
    ensures p in Merged(c, l, r).alive <==> Resolution(l, r, p).alive
  {
    FreeMergedMark(c, l, r, p);
    OutcomeIsJoin(MarkAt(l, p), MarkAt(r, p));
  }

  lemma ParentsAreFree(c: Cascade, row: Row, p: EntityKey)
    requires p in Parents(row)
    ensures Free(c, p.family)
  {
  }

  // ----- referential integrity -----

  /** Every child row has all its parents. */
  ghost predicate Closed(n: Node) {
    forall k, p :: k in n.alive && p in Parents(n.alive[k]) ==> p in n.alive
  }

  /** A local parent that is not deleted by the merge stays. */
  lemma ParentKept(c: Cascade, l: Node, r: Node, row: Row, p: EntityKey)
    requires ValidNode(l) && ValidNode(r)
    requires p in Parents(row) && p in l.alive && !WantsDelete(l, r, p)
    ensures p in Merged(c, l, r).alive
  {
    ParentsAreFree(c, row, p);
    ParentPresence(c, l, r, p);
  }

  /** A parent that is deleted by the merge is gone. */
  lemma ParentGone(c: Cascade, l: Node, r: Node, row: Row, p: EntityKey)
    requires ValidNode(l) && ValidNode(r) && p in Parents(row) && WantsDelete(l, r, p)
    ensures p !in Merged(c, l, r).alive
  {
    ParentsAreFree(c, row, p);
    ParentPresence(c, l, r, p);
  }

  lemma AdoptedHasParents(c: Cascade, l: Node, r: Node, row: Row, p: EntityKey)
    requires ValidNode(l) && ValidNode(r) && WantsUpsert(l, r, row) && p in Parents(row)
    ensures p in Merged(c, l, r).alive
  {
    ParentsAreFree(c, row, p);
    ParentPresence(c, l, r, p);
  }

  /** With the cascades the planner relies on, a merge keeps every child attached. */
  lemma IntegrityKept(l: Node, r: Node)
    requires ValidNode(l) && ValidNode(r) && Closed(l)
    ensures Closed(Merged(Documented, l, r))
  {
    var m := Merged(Documented, l, r);
    forall k, p | k in m.alive && p in Parents(m.alive[k]) ensures p in m.alive {
      var row := m.alive[k];
      if WantsUpsert(l, r, row) {
        AdoptedHasParents(Documented, l, r, row, p);
      } else {
        assert k in l.alive && l.alive[k] == row;
        assert Drags(Documented, row, p);
        ParentKept(Documented, l, r, row, p);
      }
    }
  }

  /** A bucket config that stays while its bucket is deleted. */
  ghost predicate StrandsConfig(l: Node, r: Node, k: EntityKey) {
    && k in l.alive && k.family == BucketConfig
    && !WantsDelete(l, r, k) && WantsDelete(l, r, Single(Bucket, k.first))
  }

  lemma StrandedConfig(l: Node, r: Node, k: EntityKey)
    requires ValidNode(l) && ValidNode(r) && StrandsConfig(l, r, k)
    ensures !Closed(Merged(AsStored, l, r))
  {
    var p := Single(Bucket, k.first);
    assert p in Parents(l.alive[k]);
    assert k in r.alive ==> !WantsUpsert(l, r, r.alive[k]) by {
      if k in r.alive {
        assert p in Parents(r.alive[k]);
        assert !Resolution(l, r, p).alive;
      }
    }
    assert Candidate(l, r, k) == Some(l.alive[k]);
    assert k in Merged(AsStored, l, r).alive;
    ParentGone(AsStored, l, r, l.alive[k], p);
  }

  /**
   * With the cascades the stores carry out, integrity holds exactly when no
   * bucket is deleted under a config row that itself stays.
   */
  lemma IntegrityAsStored(l: Node, r: Node)
    requires ValidNode(l) && ValidNode(r) && Closed(l)
    ensures Closed(Merged(AsStored, l, r)) <==> forall k :: !StrandsConfig(l, r, k)
  {
    var m := Merged(AsStored, l, r);
    if k :| StrandsConfig(l, r, k) {
      StrandedConfig(l, r, k);
    } else {
      forall k, p | k in m.alive && p in Parents(m.alive[k]) ensures p in m.alive {
        MergedAt(AsStored, l, r, k);
        AttachedAsStored(l, r, k, m.alive[k], p);
      }
    }
  }

  lemma AttachedAsStored(l: Node, r: Node, k: EntityKey, row: Row, p: EntityKey)
    requires ValidNode(l) && ValidNode(r) && Closed(l) && !StrandsConfig(l, r, k)
    requires Survives(AsStored, l, r, k) && Candidate(l, r, k) == Some(row) && p in Parents(row)
    ensures p in Merged(AsStored, l, r).alive
  {
    if WantsUpsert(l, r, row) {
      AdoptedHasParents(AsStored, l, r, row, p);
    } else {
      assert row.family == BucketConfig ==> p == Single(Bucket, k.first);
      assert row.family != BucketConfig ==> Drags(AsStored, row, p);
      ParentKept(AsStored, l, r, row, p);
    }
  }

  /** A bucket deleted elsewhere leaves its config behind here. */
  lemma BucketDeleteStrandsConfig() returns (l: Node, r: Node)
    ensures ValidNode(l) && ValidNode(r) && Closed(l) && Closed(r)
    ensures !Closed(Merged(AsStored, l, r))
  {
    var bucket := Row(Bucket, "b", "", Some(1), "");
    var config := Row(BucketConfig, "b", "versioning", Some(1), "Enabled");
    l := Node(map[KeyOf(bucket) := bucket, KeyOf(config) := config], map[]);
    r := Node(map[], map[Single(Bucket, "b") := 5]);
    assert StrandsConfig(l, r, KeyOf(config));
    IntegrityAsStored(l, r);
  }

  // ----- credentials and their users -----

  function Owner(row: Row): EntityKey {
    Single(User, row.link)
  }

  /** Every credential belongs to a user the node holds. */
  ghost predicate Owned(n: Node) {
    forall k :: k in n.alive && k.family == Credential ==> Owner(n.alive[k]) in n.alive
  }

  /** A credential adopted although its user is neither alive after the merge nor deleted by it. */
  ghost predicate AdoptsOrphan(l: Node, r: Node, row: Row) {
    && row.family == Credential && WantsUpsert(l, r, row)
    && !Resolution(l, r, Owner(row)).alive && !WantsDelete(l, r, Owner(row))
  }

  /**
   * Credentials are merged without looking at their user, so a credential can
   * outlive its user: exactly when one is adopted whose user is already gone.
   */
  lemma OwnershipAsStored(l: Node, r: Node)
    requires ValidNode(l) && ValidNode(r) && Owned(l)
    ensures Owned(Merged(AsStored, l, r)) <==> forall row :: !AdoptsOrphan(l, r, row)
  {
    var m := Merged(AsStored, l, r);
    if row :| AdoptsOrphan(l, r, row) {
      OrphanAdopted(l, r, row);
    } else {
      forall k | k in m.alive && k.family == Credential ensures Owner(m.alive[k]) in m.alive {
        MergedAt(AsStored, l, r, k);
        OwnedCredential(l, r, k, m.alive[k]);
      }
    }
  }

  lemma OrphanAdopted(l: Node, r: Node, row: Row)
    requires ValidNode(l) && ValidNode(r) && AdoptsOrphan(l, r, row)
    ensures !Owned(Merged(AsStored, l, r))
  {
    var k := KeyOf(row);
    MergedAt(AsStored, l, r, k);
    assert Candidate(l, r, k) == Some(row);
    assert forall p :: Drags(AsStored, row, p) ==> p == Owner(row);
    ParentPresence(AsStored, l, r, Owner(row));
  }

  lemma OwnedCredential(l: Node, r: Node, k: EntityKey, row: Row)
    requires ValidNode(l) && ValidNode(r) && Owned(l) && !AdoptsOrphan(l, r, row)
    requires Survives(AsStored, l, r, k) && Candidate(l, r, k) == Some(row) && row.family == Credential
    ensures Owner(row) in Merged(AsStored, l, r).alive
  {
    assert Drags(AsStored, row, Owner(row));
    ParentPresence(AsStored, l, r, Owner(row));
  }

  /** A deleted user's credential comes back from a peer that has not heard of the delete. */
  lemma CredentialOutlivesUser() returns (l: Node, r: Node)
    ensures ValidNode(l) && ValidNode(r) && Owned(l) && Owned(r)
    ensures !Owned(Merged(AsStored, l, r))
  {
    var user := Row(User, "u", "", Some(1), "");
    var cred := Row(Credential, "AK", "u", Some(1), "");
    l := Node(map[], map[Single(User, "u") := 5]);
    r := Node(map[KeyOf(user) := user, KeyOf(cred) := cred], map[]);
    assert AdoptsOrphan(l, r, cred);
    OwnershipAsStored(l, r);
  }

  // ----- merging again with the same peer -----

  /** No plan for the pair asks for anything. */
  ghost predicate Settled(l: Node, r: Node) {
    && (forall row :: !WantsUpsert(l, r, row))
    && (forall k :: !WantsDelete(l, r, k) && !WantsClear(l, r, k) && Resolution(l, r, k).adoptTombstoneAt.None?)
  }

  /** `Settled` restricted to one key. */
  ghost predicate SettledAt(l: Node, r: Node, k: EntityKey) {
    && (k in r.alive ==> !WantsUpsert(l, r, r.alive[k]))
    && !WantsDelete(l, r, k) && !WantsClear(l, r, k) && Resolution(l, r, k).adoptTombstoneAt.None?
  }

  lemma SettledEverywhere(l: Node, r: Node)
    ensures Settled(l, r) <==> forall k :: SettledAt(l, r, k)
  {
    if forall k :: SettledAt(l, r, k) {
      forall row: Row ensures !WantsUpsert(l, r, row) {
        assert SettledAt(l, r, KeyOf(row));
      }
      forall k: EntityKey
        ensures !WantsDelete(l, r, k) && !WantsClear(l, r, k) && Resolution(l, r, k).adoptTombstoneAt.None?
      {
        assert SettledAt(l, r, k);
      }
    }
  }

  /** A settled pair yields the empty plan. */
  lemma SettledPlanIsEmpty(plan: Plan, l: Node, r: Node)
    requires PlanMeets(plan, l, r)
    ensures Settled(l, r) <==> plan == Plan([], [], [], [])
  {
    assert plan.upserts == [] || plan.upserts[0] in plan.upserts;
    assert plan.deletes == [] || plan.deletes[0] in plan.deletes;
    assert plan.adopts == [] || plan.adopts[0] in plan.adopts;
    assert plan.clears == [] || plan.clears[0] in plan.clears;
    if plan == Plan([], [], [], []) {
      forall k: EntityKey ensures Resolution(l, r, k).adoptTombstoneAt.None? {
        if Resolution(l, r, k).adoptTombstoneAt.Some? {
          assert WantsAdopt(l, r, Tombstone(k, Resolution(l, r, k).adoptTombstoneAt.value));
        }
      }
    }
  }

  /** The keys that can take other rows with them are settled after one merge. */
  lemma FreeFamiliesSettle(c: Cascade, l: Node, r: Node, k: EntityKey)
    requires ValidNode(l) && ValidNode(r) && Free(c, k.family)
    ensures SettledAt(Merged(c, l, r), r, k)
  {
    FreeMergedMark(c, l, r, k);
    OutcomeIsFixpoint(MarkAt(l, k), MarkAt(r, k));
  }

  lemma DraggersAreFree(c: Cascade, row: Row, p: EntityKey)
    requires Drags(c, row, p)
    ensures Free(c, p.family)
  {
  }

  /** Merging again does not change which parents are alive. */
  lemma ParentsSettle(c: Cascade, l: Node, r: Node, row: Row, p: EntityKey)
    requires ValidNode(l) && ValidNode(r) && p in Parents(row)
    ensures Resolution(Merged(c, l, r), r, p).alive == Resolution(l, r, p).alive
  {
    ParentsAreFree(c, row, p);
    FreeMergedMark(c, l, r, p);
  }

  /**
   * A row that goes only because its parent does (or a credential with its
   * user), while the peer still has something to say about it: a deletion newer
   * than its own row or, for a credential, the row itself.
   */
  ghost predicate Resurfaces(c: Cascade, l: Node, r: Node, k: EntityKey) {
    && !Undragged(c, l, r, k)
    && (Before(MarkAt(r, k).alive, MarkAt(r, k).dead) || (k.family == Credential && k in r.alive))
  }

  lemma SameKeySameParents(a: Row, b: Row)
    requires KeyOf(a) == KeyOf(b) && !Unfiltered(a.family)
    ensures Parents(a) == Parents(b)
  {
  }

  /** `m` agrees with `l` on which parents of the peer's row under `k` are alive. */
  ghost predicate SameParents(l: Node, r: Node, m: Node, k: EntityKey) {
    k in r.alive ==> forall p :: p in Parents(r.alive[k]) ==> Resolution(m, r, p).alive == Resolution(l, r, p).alive
  }

  /** A row no parent takes away is settled after one merge, adopted or refused. */
  lemma KeptSettles(c: Cascade, l: Node, r: Node, m: Node, k: EntityKey)
    requires ValidNode(l) && ValidNode(r) && Undragged(c, l, r, k) && SameParents(l, r, m, k)
    requires RowAt(m, k) == Candidate(l, r, k) && DeadAt(m, k) == Outcome(MarkAt(l, k), MarkAt(r, k)).dead
    ensures SettledAt(m, r, k)
  {
    if k in r.alive && Resolution(l, r, k).upsertFromRemote && !WantsUpsert(l, r, r.alive[k]) {
      var p :| p in Parents(r.alive[k]) && !Resolution(l, r, p).alive;
      assert !WantsUpsert(m, r, r.alive[k]);
      assert MarkAt(m, k) == Mark(MarkAt(l, k).alive, None);
    } else {
      assert MarkAt(m, k) == Outcome(MarkAt(l, k), MarkAt(r, k));
      OutcomeIsFixpoint(MarkAt(l, k), MarkAt(r, k));
    }
  }

  /** The peer's row of a dragged child waits for the same parent. */
  lemma DraggedChildRefused(c: Cascade, l: Node, r: Node, m: Node, k: EntityKey)
    requires ValidNode(l) && ValidNode(r) && !Undragged(c, l, r, k) && SameParents(l, r, m, k)
    requires k.family != Credential && k in r.alive
    ensures !WantsUpsert(m, r, r.alive[k])
  {
    var o := Candidate(l, r, k).value;
    var p :| WantsDelete(l, r, p) && Drags(c, o, p);
    SameKeySameParents(o, r.alive[k]);
    assert p in Parents(r.alive[k]) && !Resolution(l, r, p).alive;
  }

  /** A row taken away with its parent leaves no mark of its own. */
  lemma DraggedSettles(c: Cascade, l: Node, r: Node, m: Node, k: EntityKey)
    requires ValidNode(l) && ValidNode(r) && !Undragged(c, l, r, k) && SameParents(l, r, m, k)
    requires RowAt(m, k) == None && DeadAt(m, k) == Outcome(MarkAt(l, k), MarkAt(r, k)).dead
    ensures SettledAt(m, r, k) <==> !Resurfaces(c, l, r, k)
  {
    assert MarkAt(m, k) == Mark(None, None);
    if k in r.alive && k.family != Credential {
      DraggedChildRefused(c, l, r, m, k);
    } else if k in r.alive {
      assert Parents(r.alive[k]) == {};
    }
  }

  /** Exactly when a second merge with the same peer has something left to do under `k`. */
  lemma KeySettles(c: Cascade, l: Node, r: Node, k: EntityKey)
    requires ValidNode(l) && ValidNode(r)
    ensures SettledAt(Merged(c, l, r), r, k) <==> !Resurfaces(c, l, r, k)
  {
    var m := Merged(c, l, r);
    MergedAt(c, l, r, k);
    if k in r.alive {
      forall p | p in Parents(r.alive[k]) ensures Resolution(m, r, p).alive == Resolution(l, r, p).alive {
        ParentsSettle(c, l, r, r.alive[k], p);
      }
    }
    if Undragged(c, l, r, k) {
      KeptSettles(c, l, r, m, k);
    } else {
      DraggedSettles(c, l, r, m, k);
    }
  }

  /** Exactly when a second merge with the same peer has something left to do at all. */
  lemma SecondMergeEmpty(c: Cascade, l: Node, r: Node)
    requires ValidNode(l) && ValidNode(r)
    ensures Settled(Merged(c, l, r), r) <==> forall k :: !Resurfaces(c, l, r, k)
  {
    var m := Merged(c, l, r);
    SettledEverywhere(m, r);
    forall k: EntityKey ensures SettledAt(m, r, k) <==> !Resurfaces(c, l, r, k) {
      KeySettles(c, l, r, k);
    }
  }

  /** A detach older than the local re-attach, adopted only once the user is gone. */
  lemma SecondMergeCanAct() returns (l: Node, r: Node)
    ensures ValidNode(l) && ValidNode(r) && Closed(l) && Closed(r)
    ensures !Settled(Merged(Documented, l, r), r)
  {
    ghost var k;
    l, r, k := LateDetach();
    SecondMergeEmpty(Documented, l, r);
  }

  lemma LateDetach() returns (l: Node, r: Node, k: EntityKey)
    ensures ValidNode(l) && ValidNode(r) && Closed(l) && Closed(r) && Resurfaces(Documented, l, r, k)
  {
    var user, grant := Row(User, "u", "", Some(1), ""), Row(Grant, "g", "", Some(1), "");
    var attached := Row(UserGrant, "u", "g", Some(5), "");
    l := Node(map[KeyOf(user) := user, KeyOf(grant) := grant, KeyOf(attached) := attached], map[]);
    r := Node(map[], map[Single(User, "u") := 9, KeyOf(attached) := 3]);
    k := KeyOf(attached);
    assert Parents(attached) == {KeyOf(user), KeyOf(grant)} && Parents(user) == {} == Parents(grant);
    DetachedLater(l, r, attached, KeyOf(user));
  }

  lemma DetachedLater(l: Node, r: Node, row: Row, u: EntityKey)
    requires ValidNode(l) && ValidNode(r) && RowAt(l, KeyOf(row)) == Some(row) && Drags(Documented, row, u)
    requires MarkAt(r, KeyOf(row)) == Mark(None, Some(3)) && row.stamp == Some(5) && row.family == UserGrant && KeyOf(row) !in l.dead
    requires WantsDelete(l, r, u)
    ensures Resurfaces(Documented, l, r, KeyOf(row))
  {
    assert Candidate(l, r, KeyOf(row)) == Some(row);
  }

  /** A user deleted elsewhere takes its credential along, and the next merge brings the credential back. */
  lemma CredentialActsAgain() returns (l: Node, r: Node)
    ensures ValidNode(l) && ValidNode(r) && Owned(l)
    ensures !Settled(Merged(AsStored, l, r), r)
  {
    var user, cred := Row(User, "u", "", Some(1), ""), Row(Credential, "AK", "u", Some(1), "");
    l := Node(map[KeyOf(user) := user, KeyOf(cred) := cred], map[]);
    r := Node(map[KeyOf(cred) := cred], map[Single(User, "u") := 5]);
    var k := KeyOf(cred);
    assert Candidate(l, r, k) == Some(cred);
    assert WantsDelete(l, r, Owner(cred)) && Drags(AsStored, cred, Owner(cred));
    assert Resurfaces(AsStored, l, r, k);
    SecondMergeEmpty(AsStored, l, r);
  }

  /** Two merges with an unchanged peer always reach the fixed point, whatever the cascades. */
  lemma TwoMergesSettle(c: Cascade, l: Node, r: Node)
    requires ValidNode(l) && ValidNode(r)
    ensures var m := Merged(c, l, r); Settled(Merged(c, m, r), r)
  {
    var m := Merged(c, l, r);
    MergedIsValid(c, l, r);
    forall k: EntityKey ensures !Resurfaces(c, m, r, k) {
      NothingDragged(c, l, r, k);
    }
    SecondMergeEmpty(c, m, r);
  }

  /** After one merge no parent is left to be deleted, so nothing is dragged. */
  lemma NothingDragged(c: Cascade, l: Node, r: Node, k: EntityKey)
    requires ValidNode(l) && ValidNode(r)
    ensures Undragged(c, Merged(c, l, r), r, k)
  {
    var m := Merged(c, l, r);
    if Candidate(m, r, k).Some? {
      forall p | Drags(c, Candidate(m, r, k).value, p) ensures !WantsDelete(m, r, p) {
        DraggersAreFree(c, Candidate(m, r, k).value, p);
        FreeFamiliesSettle(c, l, r, p);
      }
    }
  }
}
