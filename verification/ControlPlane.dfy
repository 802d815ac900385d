// Planning a control-plane merge.
//
// The thirteen row lists of a control snapshot are one list of rows tagged
// with their family, as its tombstones already are.  `View` reads a snapshot
// the way the planner's hash maps do (a later row of a key replaces an earlier
// one); `PlanControlMerge` is the planner's loops, proved to ask for exactly
// the actions the pointwise resolution asks for.
module ControlPlane {
  import opened Wrappers
  import opened Resolve

  datatype Family =
    | Credential | User | Team | Grant | Bucket
    | UserGrant | TeamGrant | TeamMember | BucketConfig | BucketTags
    | ServerConfig | Upload | Part

  /**
   * One row.  `id` is the first key component (user, team, bucket, upload, ...);
   * `link` is the second one of a two-part family (grant, user, config key,
   * part number in decimal) and the owning user of a credential.
   */
  datatype Row = Row(family: Family, id: string, link: string, stamp: Option<Time>, body: string)

  /**
   * The key of an entity within its family.  The source keys its maps by one
   * string, `JoinedKey`, in which the two components of a two-part key are
   * joined; `JoinedKeyInjective` says when that loses nothing.
   */
  datatype EntityKey = EntityKey(family: Family, first: string, second: string)

  datatype Tombstone = Tombstone(key: EntityKey, deletedAt: Time)

  datatype Snapshot = Snapshot(rows: seq<Row>, tombstones: seq<Tombstone>)

  /** The instant a row competes with; a part without one is as old as can be. */
  function At(r: Row): Time {
    if r.stamp.Some? then r.stamp.value else MIN_UTC
  }

  function PairKey(a: string, b: string): string {
    a + ":" + b
  }

  lemma ColonEndsFirst(a: string, b: string)
    requires ':' !in a
    ensures PairKey(a, b)[|a|] == ':' && forall i :: 0 <= i < |a| ==> PairKey(a, b)[i] != ':'
  {
  }

  /** The separator is unambiguous as soon as the first components hold no colon. */
  lemma PairKeyInjective(a: string, b: string, c: string, d: string)
    requires ':' !in a && ':' !in c
    requires PairKey(a, b) == PairKey(c, d)
    ensures a == c && b == d
  {
    var s := PairKey(a, b);
    ColonEndsFirst(a, b);
    ColonEndsFirst(c, d);
    assert |a| == |c|;
    assert s[..|a|] == a && s[..|c|] == c;
    assert s[|a| + 1..] == b && s[|c| + 1..] == d;
  }

  predicate Paired(f: Family) {
    f.UserGrant? || f.TeamGrant? || f.TeamMember? || f.BucketConfig? || f.Part?
  }

  /** The string the source keys an entity of its family by. */
  function JoinedKey(k: EntityKey): string {
    if Paired(k.family) then PairKey(k.first, k.second) else k.first
  }

  /** Rows of one family whose first columns hold no colon share a string only when they share a key. */
  lemma JoinedKeyInjective(a: Row, b: Row)
    requires a.family == b.family
    requires Paired(a.family) ==> ':' !in a.id && ':' !in b.id
    ensures JoinedKey(KeyOf(a)) == JoinedKey(KeyOf(b)) <==> KeyOf(a) == KeyOf(b)
  {
    if Paired(a.family) && JoinedKey(KeyOf(a)) == JoinedKey(KeyOf(b)) {
      PairKeyInjective(a.id, a.link, b.id, b.link);
    }
  }

  /** A colon in a first component can make two keys share a string. */
  lemma ColonCollides(a: string, b: string, c: string)
    ensures PairKey(PairKey(a, b), c) == PairKey(a, PairKey(b, c))
  {
    assert a + ":" + b + ":" + c == a + ":" + (b + ":" + c);
  }

  function KeyOf(r: Row): EntityKey {
    EntityKey(r.family, r.id, if Paired(r.family) then r.link else "")
  }

  function Single(f: Family, id: string): EntityKey {
    EntityKey(f, id, "")
  }

  const NODE_ID_KEY := "node_id"

  /** Server-config keys that describe one node and are never replicated. */
  predicate NodeLocal(k: EntityKey) {
    k.family == ServerConfig && k.first == NODE_ID_KEY
  }

  /** The rows that must be alive for a child row to be adopted. */
  function Parents(r: Row): set<EntityKey> {
    match r.family
    case UserGrant => {Single(User, r.id), Single(Grant, r.link)}
    case TeamGrant => {Single(Team, r.id), Single(Grant, r.link)}
    case TeamMember => {Single(Team, r.id), Single(User, r.link)}
    case BucketConfig => {Single(Bucket, r.id)}
    case BucketTags => {Single(Bucket, r.id)}
    case Part => {Single(Upload, r.id)}
    case _ => {}
  }

  // ----- node states -----

  /** A node's control plane: its live rows and its tombstones. */
  datatype Node = Node(alive: map<EntityKey, Row>, dead: map<EntityKey, Time>)

  ghost predicate ValidNode(n: Node) {
    && (forall k :: k in n.alive ==> KeyOf(n.alive[k]) == k && !NodeLocal(k))
    && (forall k :: k in n.dead ==> k.family != Part && !NodeLocal(k))
  }

  function MarkAt(n: Node, k: EntityKey): Mark {
    Mark(
      if k in n.alive then Some(At(n.alive[k])) else None,
      if k in n.dead then Some(n.dead[k]) else None)
  }

  /** The resolution of key `k` between a local and a remote node. */
  function Resolution(l: Node, r: Node, k: EntityKey): KeyResolution {
    Resolved(MarkAt(l, k), MarkAt(r, k))
  }

  function AliveView(rows: seq<Row>): map<EntityKey, Row> {
    if rows == [] then map[]
    else
      var m := AliveView(rows[..|rows| - 1]);
      var row := rows[|rows| - 1];
      if NodeLocal(KeyOf(row)) then m else m[KeyOf(row) := row]
  }

  function DeadView(ts: seq<Tombstone>): map<EntityKey, Time> {
    if ts == [] then map[]
    else
      var m := DeadView(ts[..|ts| - 1]);
      var t := ts[|ts| - 1];
      if t.key.family == Part || NodeLocal(t.key) then m else m[t.key := t.deletedAt]
  }

  function View(s: Snapshot): Node {
    Node(AliveView(s.rows), DeadView(s.tombstones))
  }

  lemma {:induction false} AliveViewKeys(rows: seq<Row>)
    ensures forall k :: k in AliveView(rows) ==> KeyOf(AliveView(rows)[k]) == k && !NodeLocal(k)
  {
    if rows != [] {
      AliveViewKeys(rows[..|rows| - 1]);
    }
  }

  lemma {:induction false} DeadViewKeys(ts: seq<Tombstone>)
    ensures forall k :: k in DeadView(ts) ==> k.family != Part && !NodeLocal(k)
  {
    if ts != [] {
      DeadViewKeys(ts[..|ts| - 1]);
    }
  }

  lemma ViewIsValid(s: Snapshot)
    ensures ValidNode(View(s))
  {
    AliveViewKeys(s.rows);
    DeadViewKeys(s.tombstones);
  }

  // ----- the plan -----

  datatype Plan = Plan(upserts: seq<Row>, deletes: seq<EntityKey>, adopts: seq<Tombstone>, clears: seq<EntityKey>)

  ghost predicate WantsUpsert(l: Node, r: Node, row: Row) {
    var k := KeyOf(row);
    && k in r.alive && r.alive[k] == row
    && Resolution(l, r, k).upsertFromRemote
    && (forall p :: p in Parents(row) ==> Resolution(l, r, p).alive)
  }

  predicate WantsDelete(l: Node, r: Node, k: EntityKey) {
    Resolution(l, r, k).deleteLocal
  }

  predicate WantsAdopt(l: Node, r: Node, t: Tombstone) {
    Resolution(l, r, t.key).adoptTombstoneAt == Some(t.deletedAt)
  }

  predicate WantsClear(l: Node, r: Node, k: EntityKey) {
    Resolution(l, r, k).clearTombstone
  }

  /** The plan holds exactly the actions the pointwise resolutions ask for. */
  ghost predicate PlanMeets(plan: Plan, l: Node, r: Node) {
    && (forall row :: row in plan.upserts <==> WantsUpsert(l, r, row))
    && (forall k :: k in plan.deletes <==> WantsDelete(l, r, k))
    && (forall t :: t in plan.adopts <==> WantsAdopt(l, r, t))
    && (forall k :: k in plan.clears <==> WantsClear(l, r, k))
  }

  /** `PlanMeets` restricted to the keys of `ks`. */
  ghost predicate PlanMeetsOn(plan: Plan, l: Node, r: Node, ks: iset<EntityKey>) {
    && (forall row :: row in plan.upserts <==> KeyOf(row) in ks && WantsUpsert(l, r, row))
    && (forall k :: k in plan.deletes <==> k in ks && WantsDelete(l, r, k))
    && (forall t :: t in plan.adopts <==> t.key in ks && WantsAdopt(l, r, t))
    && (forall k :: k in plan.clears <==> k in ks && WantsClear(l, r, k))
  }

  /** The alive-sets the planner keeps agree with the resolutions on `ks`. */
  ghost predicate AliveOn(alive: set<EntityKey>, l: Node, r: Node, ks: iset<EntityKey>) {
    forall k :: k in ks ==> (k in alive <==> Resolution(l, r, k).alive)
  }

  /** The live rows of one family by key, node-local keys left out. */
  method AliveOf(rows: seq<Row>, f: Family) returns (m: map<EntityKey, Row>)
    ensures forall k :: k in m <==> k in AliveView(rows) && k.family == f
    ensures forall k :: k in m ==> m[k] == AliveView(rows)[k]
  {
    m := map[];
    for i := 0 to |rows|
      invariant forall k :: k in m <==> k in AliveView(rows[..i]) && k.family == f
      invariant forall k :: k in m ==> m[k] == AliveView(rows[..i])[k]
    {
      assert rows[..i + 1][..i] == rows[..i];
      if rows[i].family == f && !NodeLocal(KeyOf(rows[i])) {
        m := m[KeyOf(rows[i]) := rows[i]];
      }
    }
    assert rows[..|rows|] == rows;
  }

  /** The tombstones of one family by key. */
  method TombstoneMap(ts: seq<Tombstone>, f: Family) returns (m: map<EntityKey, Time>)
    requires f != Part
    ensures forall k :: !NodeLocal(k) ==> (k in m <==> k in DeadView(ts) && k.family == f)
    ensures forall k :: !NodeLocal(k) && k in m ==> m[k] == DeadView(ts)[k]
    ensures forall k :: k in m ==> k.family == f
  {
    m := map[];
    for i := 0 to |ts|
      invariant forall k :: !NodeLocal(k) ==> (k in m <==> k in DeadView(ts[..i]) && k.family == f)
      invariant forall k :: !NodeLocal(k) && k in m ==> m[k] == DeadView(ts[..i])[k]
      invariant forall k :: k in m ==> k.family == f
    {
      assert ts[..i + 1][..i] == ts[..i];
      if ts[i].key.family == f {
        m := m[ts[i].key := ts[i].deletedAt];
      }
    }
    assert ts[..|ts|] == ts;
  }

  function Stamp(m: map<EntityKey, Row>, k: EntityKey): Option<Time> {
    if k in m then Some(At(m[k])) else None
  }

  function Get(m: map<EntityKey, Time>, k: EntityKey): Option<Time> {
    if k in m then Some(m[k]) else None
  }

  /** Pushes the actions of one resolved key. */
  function PushKey(p: Plan, k: EntityKey, res: KeyResolution, adopt: seq<Row>): Plan {
    Plan(
      p.upserts + adopt,
      if res.deleteLocal then p.deletes + [k] else p.deletes,
      if res.adoptTombstoneAt.Some? then p.adopts + [Tombstone(k, res.adoptTombstoneAt.value)] else p.adopts,
      if res.clearTombstone then p.clears + [k] else p.clears)
  }

  lemma PushKeyMeets(p: Plan, l: Node, r: Node, ks: iset<EntityKey>, k: EntityKey, adopt: seq<Row>)
    requires k !in ks && PlanMeetsOn(p, l, r, ks)
    requires adopt == if k in r.alive && KeyOf(r.alive[k]) == k && WantsUpsert(l, r, r.alive[k]) then [r.alive[k]] else []
    ensures PlanMeetsOn(PushKey(p, k, Resolution(l, r, k), adopt), l, r, ks + iset{k})
  {
    var p' := PushKey(p, k, Resolution(l, r, k), adopt);
    forall row: Row ensures row in p'.upserts <==> KeyOf(row) in ks + iset{k} && WantsUpsert(l, r, row) {
    }
    forall t: Tombstone ensures t in p'.adopts <==> t.key in ks + iset{k} && WantsAdopt(l, r, t) {
      assert t.key == k && WantsAdopt(l, r, t) ==> t == Tombstone(k, t.deletedAt);
    }
  }

  /** The two maps of one family block that describe one side. */
  datatype Side = Side(alive: map<EntityKey, Row>, dead: map<EntityKey, Time>)

  function MarkIn(s: Side, k: EntityKey): Mark {
    Mark(Stamp(s.alive, k), Get(s.dead, k))
  }

  /** The maps show what node `n` holds for every replicated key of family `f`. */
  ghost predicate Reads(s: Side, n: Node, f: Family) {
    && (forall k :: k in s.alive ==> k.family == f && k in n.alive && n.alive[k] == s.alive[k])
    && (forall k :: k in s.dead ==> k.family == f)
    && (forall k: EntityKey :: k.family == f && !NodeLocal(k) ==> MarkIn(s, k) == MarkAt(n, k))
  }

  method ReadSide(s: Snapshot, f: Family) returns (side: Side)
    requires f != Part
    ensures Reads(side, View(s), f)
  {
    var alive := AliveOf(s.rows, f);
    var dead := TombstoneMap(s.tombstones, f);
    side := Side(alive, dead);
    forall k: EntityKey | k.family == f && !NodeLocal(k) ensures MarkIn(side, k) == MarkAt(View(s), k) {
    }
  }

  function Keys(l: Side, r: Side): set<EntityKey> {
    l.alive.Keys + r.alive.Keys + l.dead.Keys + r.dead.Keys
  }

  ghost function OfFamily(f: Family): iset<EntityKey> {
    iset k: EntityKey | k.family == f
  }

  /** A key neither node knows of asks for nothing. */
  lemma UnknownKeyNeedsNothing(l: Node, r: Node, k: EntityKey)
    requires MarkAt(l, k) == Mark(None, None) == MarkAt(r, k)
    ensures Resolution(l, r, k) == KeyResolution(false, false, false, None, false)
  {
  }

  lemma KeysCoverFamily(ls: Side, rs: Side, l: Node, r: Node, f: Family, k: EntityKey)
    requires ValidNode(l) && ValidNode(r) && Reads(ls, l, f) && Reads(rs, r, f)
    requires k.family == f && (k !in Keys(ls, rs) || NodeLocal(k))
    ensures Resolution(l, r, k) == KeyResolution(false, false, false, None, false)
  {
    if !NodeLocal(k) {
      assert MarkIn(ls, k) == Mark(None, None) == MarkIn(rs, k);
    }
    UnknownKeyNeedsNothing(l, r, k);
  }

  /** The parents of every row of family `f` are among `ks`. */
  ghost predicate ParentsIn(f: Family, ks: iset<EntityKey>) {
    forall row: Row, p: EntityKey :: row.family == f && p in Parents(row) ==> p in ks
  }

  /** Resolves one key of a family block and pushes its actions. */
  method PlanKey(ls: Side, rs: Side, f: Family, k: EntityKey, alive: set<EntityKey>, base: Plan,
                 ghost l: Node, ghost r: Node, ghost parents: iset<EntityKey>, ghost ks: iset<EntityKey>)
    returns (plan: Plan, stays: bool)
    requires ValidNode(l) && ValidNode(r) && Reads(ls, l, f) && Reads(rs, r, f)
    requires k.family == f && k !in ks && PlanMeetsOn(base, l, r, ks)
    requires ParentsIn(f, parents) && AliveOn(alive, l, r, parents)
    ensures PlanMeetsOn(plan, l, r, ks + iset{k})
    ensures stays == Resolution(l, r, k).alive
  {
    if NodeLocal(k) {
      KeysCoverFamily(ls, rs, l, r, f, k);
      PushKeyMeets(base, l, r, ks, k, []);
      assert PushKey(base, k, Resolution(l, r, k), []) == base;
      return base, false;
    }
    var res := ResolveKey(Stamp(ls.alive, k), Get(ls.dead, k), Stamp(rs.alive, k), Get(rs.dead, k));
    assert MarkIn(ls, k) == MarkAt(l, k) && MarkIn(rs, k) == MarkAt(r, k);
    assert res == Resolution(l, r, k);
    var adopt := [];
    if res.upsertFromRemote {
      var x := rs.alive[k];
      assert r.alive[k] == x && KeyOf(x) == k;
      if Parents(x) <= alive {
        adopt := [x];
      }
    }
    PushKeyMeets(base, l, r, ks, k, adopt);
    plan, stays := PushKey(base, k, res, adopt), res.alive;
  }

  lemma AliveOnExtends(alive: set<EntityKey>, l: Node, r: Node, ks: iset<EntityKey>, done: iset<EntityKey>, k: EntityKey)
    requires AliveOn(alive, l, r, done) && k !in alive
    ensures (ks + done) + iset{k} == ks + (done + iset{k})
    ensures AliveOn(if Resolution(l, r, k).alive then alive + {k} else alive, l, r, done + iset{k})
  {
  }

  /** The loop of a family block, over the keys in any order. */
  method PlanKeys(ls: Side, rs: Side, f: Family, all: set<EntityKey>, alive: set<EntityKey>, base: Plan,
                  ghost l: Node, ghost r: Node, ghost ks: iset<EntityKey>)
    returns (plan: Plan, aliveKeys: set<EntityKey>)
    requires ValidNode(l) && ValidNode(r) && Reads(ls, l, f) && Reads(rs, r, f)
    requires forall k :: k in all ==> k.family == f && k !in ks
    requires AliveOn(alive, l, r, ks) && PlanMeetsOn(base, l, r, ks) && ParentsIn(f, ks)
    ensures PlanMeetsOn(plan, l, r, ks + (iset k | k in all))
    ensures AliveOn(aliveKeys, l, r, (iset k | k in all)) && aliveKeys <= all
  {
    var keys := all;
    ghost var done: iset<EntityKey> := iset{};
    plan, aliveKeys := base, {};
    assert ks + done == ks;
    while keys != {}
      invariant keys <= all && aliveKeys <= all
      invariant done == iset k | k in all && k !in keys
      invariant forall k :: k in aliveKeys ==> k !in keys
      invariant PlanMeetsOn(plan, l, r, ks + done) && AliveOn(aliveKeys, l, r, done)
      decreases |keys|
    {
      var k :| k in keys;
      keys := keys - {k};
      var stays;
      plan, stays := PlanKey(ls, rs, f, k, alive, plan, l, r, ks, ks + done);
      AliveOnExtends(aliveKeys, l, r, ks, done, k);
      if stays {
        aliveKeys := aliveKeys + {k};
      }
      done := done + iset{k};
    }
    assert done == iset k | k in all;
  }

  /** One family block of the planner: resolve every key either side knows of. */
  method PlanFamily(ls: Side, rs: Side, f: Family, alive: set<EntityKey>, base: Plan,
                    ghost l: Node, ghost r: Node, ghost ks: iset<EntityKey>)
    returns (plan: Plan, aliveKeys: set<EntityKey>)
    requires ValidNode(l) && ValidNode(r) && Reads(ls, l, f) && Reads(rs, r, f)
    requires forall k :: k in ks ==> k.family != f
    requires AliveOn(alive, l, r, ks) && PlanMeetsOn(base, l, r, ks) && ParentsIn(f, ks)
    ensures PlanMeetsOn(plan, l, r, ks + OfFamily(f))
    ensures AliveOn(aliveKeys, l, r, OfFamily(f)) && forall k :: k in aliveKeys ==> k.family == f
  {
    var all := Keys(ls, rs);
    assert forall k :: k in all ==> k.family == f;
    plan, aliveKeys := PlanKeys(ls, rs, f, all, alive, base, l, r, ks);
    ghost var done := iset k | k in all;
    forall k: EntityKey | k.family == f && k !in done
      ensures Resolution(l, r, k) == KeyResolution(false, false, false, None, false)
    {
      KeysCoverFamily(ls, rs, l, r, f, k);
    }
    ExtendByQuietKeys(plan, aliveKeys, l, r, f, ks, done);
  }

  /** Keys that ask for nothing can be counted as handled. */
  lemma ExtendByQuietKeys(p: Plan, alive: set<EntityKey>, l: Node, r: Node, f: Family, ks: iset<EntityKey>, done: iset<EntityKey>)
    requires PlanMeetsOn(p, l, r, ks + done) && AliveOn(alive, l, r, done)
    requires forall k :: k in done ==> k.family == f
    requires forall k :: k in alive ==> k in done
    requires forall k: EntityKey :: k.family == f && k !in done ==>
      Resolution(l, r, k) == KeyResolution(false, false, false, None, false)
    ensures PlanMeetsOn(p, l, r, ks + OfFamily(f)) && AliveOn(alive, l, r, OfFamily(f))
  {
  }

  // ----- the whole planner -----

  /** The order in which the planner handles the families: parents first. */
  const FAMILIES: seq<Family> :=
    [Credential, User, Team, Grant, Bucket, UserGrant, TeamGrant, TeamMember,
     BucketConfig, BucketTags, ServerConfig, Upload]

  ghost function Handled(i: nat): iset<EntityKey>
    requires i <= |FAMILIES|
  {
    iset k: EntityKey | k.family in FAMILIES[..i]
  }

  lemma ParentsFirst(i: nat)
    requires i < |FAMILIES|
    ensures ParentsIn(FAMILIES[i], Handled(i))
    ensures FAMILIES[i] != Part && forall k :: k in Handled(i) ==> k.family != FAMILIES[i]
    ensures Handled(i + 1) == Handled(i) + OfFamily(FAMILIES[i])
  {
    FamiliesApart(i);
    assert User == FAMILIES[1] && Team == FAMILIES[2] && Grant == FAMILIES[3] && Bucket == FAMILIES[4];
    assert i >= 5 ==> User in FAMILIES[..i] && Team in FAMILIES[..i] && Grant in FAMILIES[..i] && Bucket in FAMILIES[..i];
  }

  lemma FamiliesApart(i: nat)
    requires i < |FAMILIES|
    ensures FAMILIES[i] != Part && forall k :: k in Handled(i) ==> k.family != FAMILIES[i]
    ensures Handled(i + 1) == Handled(i) + OfFamily(FAMILIES[i])
  {
    assert FAMILIES[..i + 1] == FAMILIES[..i] + [FAMILIES[i]];
  }

  lemma AllButPart(k: EntityKey)
    ensures k in Handled(|FAMILIES|) <==> k.family != Part
  {
    assert FAMILIES[..|FAMILIES|] == FAMILIES;
    match k.family
    case Credential => assert FAMILIES[0] == k.family;
    case User => assert FAMILIES[1] == k.family;
    case Team => assert FAMILIES[2] == k.family;
    case Grant => assert FAMILIES[3] == k.family;
    case Bucket => assert FAMILIES[4] == k.family;
    case UserGrant => assert FAMILIES[5] == k.family;
    case TeamGrant => assert FAMILIES[6] == k.family;
    case TeamMember => assert FAMILIES[7] == k.family;
    case BucketConfig => assert FAMILIES[8] == k.family;
    case BucketTags => assert FAMILIES[9] == k.family;
    case ServerConfig => assert FAMILIES[10] == k.family;
    case Upload => assert FAMILIES[11] == k.family;
    case Part =>
  }

  /** No two remote part rows share a key: the table's primary key. */
  ghost predicate DistinctParts(rows: seq<Row>) {
    forall i, j :: 0 <= i < j < |rows| && rows[i].family == Part && rows[j].family == Part ==>
      KeyOf(rows[i]) != KeyOf(rows[j])
  }

  lemma {:induction false} DistinctPartsInView(rows: seq<Row>, i: nat)
    requires DistinctParts(rows) && i < |rows| && rows[i].family == Part
    ensures KeyOf(rows[i]) in AliveView(rows) && AliveView(rows)[KeyOf(rows[i])] == rows[i]
    decreases |rows|
  {
    var n := |rows| - 1;
    if i < n {
      DistinctPartsInView(rows[..n], i);
    }
  }

  lemma {:induction false} ViewInRows(rows: seq<Row>, k: EntityKey)
    requires k in AliveView(rows)
    ensures AliveView(rows)[k] in rows
  {
    var n := |rows| - 1;
    if k in AliveView(rows[..n]) {
      ViewInRows(rows[..n], k);
    }
  }

  predicate NewPart(lAlive: map<EntityKey, Row>, alive: set<EntityKey>, x: Row) {
    && x.family == Part
    && (KeyOf(x) !in lAlive || At(x) > At(lAlive[KeyOf(x)]))
    && Single(Upload, x.id) in alive
  }

  /** The remote parts that are new or newer here and whose upload stays alive. */
  method PlanParts(rows: seq<Row>, lAlive: map<EntityKey, Row>, alive: set<EntityKey>) returns (upserts: seq<Row>)
    ensures forall row :: row in upserts <==> row in rows && NewPart(lAlive, alive, row)
  {
    upserts := [];
    for i := 0 to |rows|
      invariant forall row :: row in upserts <==> row in rows[..i] && NewPart(lAlive, alive, row)
    {
      var x := rows[i];
      assert rows[..i + 1] == rows[..i] + [x];
      if x.family == Part {
        var newer := if KeyOf(x) in lAlive then At(x) > At(lAlive[KeyOf(x)]) else true;
        if newer && Single(Upload, x.id) in alive {
          upserts := upserts + [x];
        }
      }
    }
    assert rows[..|rows|] == rows;
  }

  lemma PartInView(rows: seq<Row>, row: Row)
    requires DistinctParts(rows) && row.family == Part
    ensures row in rows <==> KeyOf(row) in AliveView(rows) && AliveView(rows)[KeyOf(row)] == row
  {
    if row in rows {
      var i :| 0 <= i < |rows| && rows[i] == row;
      DistinctPartsInView(rows, i);
    } else if KeyOf(row) in AliveView(rows) {
      ViewInRows(rows, KeyOf(row));
    }
  }

  /** A part has no tombstone: it is wanted when it is new or newer. */
  lemma PartResolves(l: Node, r: Node, k: EntityKey)
    requires ValidNode(l) && ValidNode(r) && k.family == Part
    ensures Resolution(l, r, k).upsertFromRemote <==>
      k in r.alive && (k !in l.alive || At(r.alive[k]) > At(l.alive[k]))
    ensures !WantsDelete(l, r, k) && !WantsClear(l, r, k) && Resolution(l, r, k).adoptTombstoneAt.None?
  {
    assert MarkAt(l, k).dead == None == MarkAt(r, k).dead;
  }

  /** A remote part the planner takes: new or newer here, and its upload stays alive. */
  ghost predicate WantsPart(l: Node, r: Node, row: Row) {
    && row.family == Part
    && (KeyOf(row) !in l.alive || At(row) > At(l.alive[KeyOf(row)]))
    && Resolution(l, r, Single(Upload, row.id)).alive
  }

  lemma NewPartWanted(l: Node, r: Node, lAlive: map<EntityKey, Row>, alive: set<EntityKey>, row: Row)
    requires AliveOn(alive, l, r, Handled(|FAMILIES|))
    requires forall k :: k in lAlive <==> k in l.alive && k.family == Part
    requires forall k :: k in lAlive ==> lAlive[k] == l.alive[k]
    ensures NewPart(lAlive, alive, row) <==> WantsPart(l, r, row)
  {
    AllButPart(Single(Upload, row.id));
  }

  /** With distinct keys the parts taken are the upserts the resolutions ask for. */
  lemma PartWanted(local: Snapshot, remote: Snapshot, row: Row)
    requires DistinctParts(remote.rows)
    ensures row in remote.rows && WantsPart(View(local), View(remote), row) <==>
      row.family == Part && WantsUpsert(View(local), View(remote), row)
  {
    if row.family == Part {
      ViewIsValid(local);
      ViewIsValid(remote);
      PartInView(remote.rows, row);
      PartResolves(View(local), View(remote), KeyOf(row));
      assert Parents(row) == {Single(Upload, row.id)};
    }
  }

  lemma PartKeys(l: Node, r: Node, k: EntityKey)
    requires ValidNode(l) && ValidNode(r)
    ensures k in Handled(|FAMILIES|) <==> k.family != Part
    ensures k.family == Part ==>
      !WantsDelete(l, r, k) && !WantsClear(l, r, k) && Resolution(l, r, k).adoptTombstoneAt.None?
  {
    AllButPart(k);
    if k.family == Part {
      PartResolves(l, r, k);
    }
  }

  /** What the planner asks for, whatever the lists: parts row by row, everything else by resolution. */
  ghost predicate PlanFollows(plan: Plan, l: Node, r: Node, remoteRows: seq<Row>) {
    && (forall row :: row in plan.upserts <==>
          if row.family == Part then row in remoteRows && WantsPart(l, r, row) else WantsUpsert(l, r, row))
    && (forall k :: k in plan.deletes <==> WantsDelete(l, r, k))
    && (forall t :: t in plan.adopts <==> WantsAdopt(l, r, t))
    && (forall k :: k in plan.clears <==> WantsClear(l, r, k))
  }

  lemma PartsFollow(l: Node, r: Node, remoteRows: seq<Row>, base: Plan, parts: seq<Row>)
    requires ValidNode(l) && ValidNode(r)
    requires PlanMeetsOn(base, l, r, Handled(|FAMILIES|))
    requires forall row :: row in parts <==> row in remoteRows && WantsPart(l, r, row)
    ensures PlanFollows(base.(upserts := base.upserts + parts), l, r, remoteRows)
  {
    forall row: Row ensures row in base.upserts + parts <==>
      if row.family == Part then row in remoteRows && WantsPart(l, r, row) else WantsUpsert(l, r, row)
    {
      PartKeys(l, r, KeyOf(row));
    }
    forall k: EntityKey ensures (k in base.deletes <==> WantsDelete(l, r, k)) && (k in base.clears <==> WantsClear(l, r, k)) {
      PartKeys(l, r, k);
    }
    forall t: Tombstone ensures t in base.adopts <==> WantsAdopt(l, r, t) {
      PartKeys(l, r, t.key);
    }
  }

  /** Where no two remote parts share a key, that is exactly the pointwise resolution of every key. */
  lemma FollowsMeets(plan: Plan, local: Snapshot, remote: Snapshot)
    requires DistinctParts(remote.rows) && PlanFollows(plan, View(local), View(remote), remote.rows)
    ensures PlanMeets(plan, View(local), View(remote))
  {
    forall row: Row ensures row in plan.upserts <==> WantsUpsert(View(local), View(remote), row) {
      PartWanted(local, remote, row);
    }
  }

  /** The planner: twelve family blocks, then the replace-only parts. */
  method PlanControlMerge(local: Snapshot, remote: Snapshot) returns (plan: Plan)
    ensures PlanFollows(plan, View(local), View(remote), remote.rows)
  {
    plan := Plan([], [], [], []);
    var alive: set<EntityKey> := {};
    ghost var l, r := View(local), View(remote);
    ViewIsValid(local);
    ViewIsValid(remote);
    for i := 0 to |FAMILIES|
      invariant PlanMeetsOn(plan, l, r, Handled(i)) && AliveOn(alive, l, r, Handled(i))
      invariant forall k :: k in alive ==> k in Handled(i)
    {
      ParentsFirst(i);
      var ls := ReadSide(local, FAMILIES[i]);
      var rs := ReadSide(remote, FAMILIES[i]);
      var aliveKeys;
      plan, aliveKeys := PlanFamily(ls, rs, FAMILIES[i], alive, plan, l, r, Handled(i));
      alive := alive + aliveKeys;
    }
    var lAlive := AliveOf(local.rows, Part);
    var parts := PlanParts(remote.rows, lAlive, alive);
    forall row: Row ensures NewPart(lAlive, alive, row) <==> WantsPart(l, r, row) {
      NewPartWanted(l, r, lAlive, alive, row);
    }
    PartsFollow(l, r, remote.rows, plan, parts);
    plan := plan.(upserts := plan.upserts + parts);
  }
}
