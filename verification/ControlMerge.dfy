// Carrying out a control-plane merge plan.
//
// A plan is executed as a list of single-row operations, each committed on its
// own, in the order the store and the reconcile worker use.  `Merged` is the
// closed form of the result.
module ControlMerge {
  import opened Wrappers
  import opened Resolve
  import opened ControlPlane

  /**
   * Which children a parent delete takes with it.  `Documented` is what the
   * planner relies on; `AsStored` is what the two SQL stores do: they keep
   * bucket configs when a bucket goes, and drop credentials with their user.
   */
  datatype Cascade = Documented | AsStored

  predicate Drags(c: Cascade, row: Row, parent: EntityKey) {
    match c
    case Documented => parent in Parents(row)
    case AsStored =>
      || (row.family != BucketConfig && parent in Parents(row))
      || (row.family == Credential && parent == Single(User, row.link))
  }

  /** Removing `k` takes away the row `row` stored under `x`. */
  predicate Hits(c: Cascade, row: Row, x: EntityKey, k: EntityKey) {
    x == k || Drags(c, row, k)
  }

  /** One committed write; `Adopt` keeps the later of two tombstones. */
  datatype Op = Adopt(t: Tombstone) | Upsert(row: Row) | Remove(k: EntityKey) | Clear(k: EntityKey)

  function Exec(c: Cascade, n: Node, op: Op): Node {
    match op
    case Adopt(t) =>
      n.(dead := n.dead[t.key := if t.key in n.dead && n.dead[t.key] > t.deletedAt then n.dead[t.key] else t.deletedAt])
    case Upsert(row) => n.(alive := n.alive[KeyOf(row) := row])
    case Remove(k) => n.(alive := map x | x in n.alive && !Hits(c, n.alive[x], x, k) :: n.alive[x])
    case Clear(k) => n.(dead := n.dead - {k})
  }

  function Run(c: Cascade, n: Node, ops: seq<Op>): Node
    decreases |ops|
  {
    if ops == [] then n else Run(c, Exec(c, n, ops[0]), ops[1..])
  }

  /** Families kept by the identity store; the others are in the metadata store. */
  predicate Identity(f: Family) {
    !f.Bucket? && !f.BucketConfig? && !f.BucketTags? && !f.Upload? && !f.Part?
  }

  /**
   * The groups of operations in the order they run: tombstones first, then the
   * identity rows, then the clears, and the metadata rows last.  Within a group
   * the order is left open.
   */
  datatype Phases = Phases(adopts: seq<Op>, upserts: seq<Op>, removes: seq<Op>, clears: seq<Op>,
                           metaUpserts: seq<Op>, metaRemoves: seq<Op>)
  {
    function IdentityOps(): seq<Op> {
      adopts + (upserts + (removes + clears))
    }

    function MetadataOps(): seq<Op> {
      metaUpserts + metaRemoves
    }

    function Ops(): seq<Op> {
      IdentityOps() + MetadataOps()
    }

    ghost predicate Carries(plan: Plan) {
      && (forall op :: op in adopts <==> op.Adopt? && op.t in plan.adopts)
      && (forall op :: op in upserts <==> op.Upsert? && op.row in plan.upserts && Identity(op.row.family))
      && (forall op :: op in removes <==> op.Remove? && op.k in plan.deletes && Identity(op.k.family))
      && (forall op :: op in clears <==> op.Clear? && op.k in plan.clears)
      && (forall op :: op in metaUpserts <==> op.Upsert? && op.row in plan.upserts && !Identity(op.row.family))
      && (forall op :: op in metaRemoves <==> op.Remove? && op.k in plan.deletes && !Identity(op.k.family))
    }
  }

  /** The phases of a plan, each in the order the plan lists its actions. */
  function PhasesOf(plan: Plan): (ph: Phases)
    ensures ph.Carries(plan)
  {
    Phases(
      Adopts(plan.adopts),
      Upserts(plan.upserts, true), Removes(plan.deletes, true),
      Clears(plan.clears),
      Upserts(plan.upserts, false), Removes(plan.deletes, false))
  }

  function Adopts(ts: seq<Tombstone>): (ops: seq<Op>)
    ensures forall op :: op in ops <==> op.Adopt? && op.t in ts
  {
    if ts == [] then [] else [Adopt(ts[0])] + Adopts(ts[1..])
  }

  function Clears(ks: seq<EntityKey>): (ops: seq<Op>)
    ensures forall op :: op in ops <==> op.Clear? && op.k in ks
  {
    if ks == [] then [] else [Clear(ks[0])] + Clears(ks[1..])
  }

  function Upserts(rows: seq<Row>, identity: bool): (ops: seq<Op>)
    ensures forall op :: op in ops <==> op.Upsert? && op.row in rows && Identity(op.row.family) == identity
  {
    if rows == [] then []
    else (if Identity(rows[0].family) == identity then [Upsert(rows[0])] else []) + Upserts(rows[1..], identity)
  }

  function Removes(ks: seq<EntityKey>, identity: bool): (ops: seq<Op>)
    ensures forall op :: op in ops <==> op.Remove? && op.k in ks && Identity(op.k.family) == identity
  {
    if ks == [] then []
    else (if Identity(ks[0].family) == identity then [Remove(ks[0])] else []) + Removes(ks[1..], identity)
  }

  // ----- one key at a time -----

  function RowAt(n: Node, x: EntityKey): Option<Row> {
    if x in n.alive then Some(n.alive[x]) else None
  }

  function DeadAt(n: Node, x: EntityKey): Option<Time> {
    if x in n.dead then Some(n.dead[x]) else None
  }

  /** What an operation does to the row under `x`. */
  function RowStep(c: Cascade, x: EntityKey, o: Option<Row>, op: Op): Option<Row> {
    match op
    case Upsert(row) => if KeyOf(row) == x then Some(row) else o
    case Remove(k) => if o.Some? && Hits(c, o.value, x, k) then None else o
    case _ => o
  }

  function RowRun(c: Cascade, x: EntityKey, o: Option<Row>, ops: seq<Op>): Option<Row>
    decreases |ops|
  {
    if ops == [] then o else RowRun(c, x, RowStep(c, x, o, ops[0]), ops[1..])
  }

  /** What an operation does to the tombstone of `x`. */
  function DeadStep(x: EntityKey, d: Option<Time>, op: Op): Option<Time> {
    match op
    case Adopt(t) => if t.key == x then Newest(d, Some(t.deletedAt)) else d
    case Clear(k) => if k == x then None else d
    case _ => d
  }

  function DeadRun(x: EntityKey, d: Option<Time>, ops: seq<Op>): Option<Time>
    decreases |ops|
  {
    if ops == [] then d else DeadRun(x, DeadStep(x, d, ops[0]), ops[1..])
  }

  lemma {:induction false} RunPointwise(c: Cascade, n: Node, ops: seq<Op>, x: EntityKey)
    ensures RowAt(Run(c, n, ops), x) == RowRun(c, x, RowAt(n, x), ops)
    ensures DeadAt(Run(c, n, ops), x) == DeadRun(x, DeadAt(n, x), ops)
    decreases |ops|
  {
    if ops == [] {
    } else {
      ExecAt(c, n, ops[0], x);
      RunPointwise(c, Exec(c, n, ops[0]), ops[1..], x);
    }
  }

  lemma ExecAt(c: Cascade, n: Node, op: Op, x: EntityKey)
    ensures RowAt(Exec(c, n, op), x) == RowStep(c, x, RowAt(n, x), op)
    ensures DeadAt(Exec(c, n, op), x) == DeadStep(x, DeadAt(n, x), op)
  {
  }

  lemma {:induction false} RowConcat(c: Cascade, x: EntityKey, o: Option<Row>, a: seq<Op>, b: seq<Op>)
    ensures RowRun(c, x, o, a + b) == RowRun(c, x, RowRun(c, x, o, a), b)
    decreases |a|
  {
    if a == [] {
      assert a + b == b;
    } else {
      assert (a + b)[1..] == a[1..] + b;
      RowConcat(c, x, RowStep(c, x, o, a[0]), a[1..], b);
    }
  }

  lemma {:induction false} DeadConcat(x: EntityKey, d: Option<Time>, a: seq<Op>, b: seq<Op>)
    ensures DeadRun(x, d, a + b) == DeadRun(x, DeadRun(x, d, a), b)
    decreases |a|
  {
    if a == [] {
      assert a + b == b;
    } else {
      assert (a + b)[1..] == a[1..] + b;
      DeadConcat(x, DeadStep(x, d, a[0]), a[1..], b);
    }
  }

  lemma {:induction false} RowIdle(c: Cascade, x: EntityKey, o: Option<Row>, ops: seq<Op>)
    requires forall op :: op in ops ==> RowStep(c, x, o, op) == o
    ensures RowRun(c, x, o, ops) == o
    decreases |ops|
  {
    if ops != [] {
      assert ops[0] in ops;
      RowIdle(c, x, o, ops[1..]);
    }
  }

  lemma {:induction false} DeadIdle(x: EntityKey, d: Option<Time>, ops: seq<Op>)
    requires forall op :: op in ops ==> DeadStep(x, d, op) == d
    ensures DeadRun(x, d, ops) == d
    decreases |ops|
  {
    if ops != [] {
      assert ops[0] in ops;
      DeadIdle(x, d, ops[1..]);
    }
  }

  /** A group of upserts that agree on what belongs under `x`. */
  lemma {:induction false} RowUpserts(c: Cascade, x: EntityKey, o: Option<Row>, ops: seq<Op>, w: Row)
    requires Upsert(w) in ops && KeyOf(w) == x
    requires forall op :: op in ops ==> op.Upsert? && (KeyOf(op.row) == x ==> op.row == w)
    ensures RowRun(c, x, o, ops) == Some(w)
    decreases |ops|
  {
    assert ops[0] in ops;
    if Upsert(w) in ops[1..] {
      RowUpserts(c, x, RowStep(c, x, o, ops[0]), ops[1..], w);
    } else {
      RowIdle(c, x, Some(w), ops[1..]);
    }
  }

  lemma {:induction false} RowRemoved(c: Cascade, x: EntityKey, row: Row, ops: seq<Op>, k: EntityKey)
    requires forall op :: op in ops ==> op.Remove?
    requires Remove(k) in ops && Hits(c, row, x, k)
    ensures RowRun(c, x, Some(row), ops) == None
    decreases |ops|
  {
    assert ops[0] in ops;
    if Hits(c, row, x, ops[0].k) {
      assert forall op :: op in ops[1..] ==> op in ops;
      RowIdle(c, x, None, ops[1..]);
    } else {
      RowRemoved(c, x, row, ops[1..], k);
    }
  }

  lemma {:induction false} DeadAdopted(x: EntityKey, d: Option<Time>, ops: seq<Op>, t: Tombstone)
    requires Adopt(t) in ops && t.key == x && !Before(Some(t.deletedAt), d)
    requires forall op :: op in ops ==> op.Adopt? && (op.t.key == x ==> op.t == t)
    ensures DeadRun(x, d, ops) == Some(t.deletedAt)
    decreases |ops|
  {
    assert ops[0] in ops;
    if Adopt(t) in ops[1..] {
      DeadAdopted(x, DeadStep(x, d, ops[0]), ops[1..], t);
    } else {
      DeadIdle(x, Some(t.deletedAt), ops[1..]);
    }
  }

  lemma {:induction false} DeadCleared(x: EntityKey, d: Option<Time>, ops: seq<Op>)
    requires Clear(x) in ops && forall op :: op in ops ==> op.Clear?
    ensures DeadRun(x, d, ops) == None
    decreases |ops|
  {
    assert ops[0] in ops;
    if Clear(x) in ops[1..] {
      DeadCleared(x, DeadStep(x, d, ops[0]), ops[1..]);
    } else {
      assert forall op :: op in ops[1..] ==> op in ops;
      DeadIdle(x, None, ops[1..]);
    }
  }

  // ----- the closed form -----

  /** The row the merge wants under `k`, before cascades. */
  ghost function Candidate(l: Node, r: Node, k: EntityKey): Option<Row> {
    if k in r.alive && WantsUpsert(l, r, r.alive[k]) then Some(r.alive[k])
    else if k in l.alive && !WantsDelete(l, r, k) then Some(l.alive[k])
    else None
  }

  /** Some local parent the merge deletes takes `row` with it. */
  ghost predicate Dragged(c: Cascade, l: Node, r: Node, row: Row) {
    exists p :: WantsDelete(l, r, p) && Drags(c, row, p)
  }

  ghost predicate Survives(c: Cascade, l: Node, r: Node, k: EntityKey) {
    Candidate(l, r, k).Some? && !Dragged(c, l, r, Candidate(l, r, k).value)
  }

  ghost function Merged(c: Cascade, l: Node, r: Node): Node {
    Node(
      map k | k in l.alive.Keys + r.alive.Keys && Survives(c, l, r, k) :: Candidate(l, r, k).value,
      map k | k in l.dead.Keys + r.dead.Keys && Outcome(MarkAt(l, k), MarkAt(r, k)).dead.Some? ::
        Outcome(MarkAt(l, k), MarkAt(r, k)).dead.value)
  }

  lemma MergedIsValid(c: Cascade, l: Node, r: Node)
    requires ValidNode(l) && ValidNode(r)
    ensures ValidNode(Merged(c, l, r))
  {
  }

  /** A parent of the identity store has its children there, and likewise for metadata. */
  lemma DragsWithinStore(c: Cascade, row: Row, k: EntityKey)
    requires Drags(c, row, k)
    ensures Identity(row.family) <==> Identity(k.family)
  {
  }

  /** Upserts of a plan agree with the remote rows. */
  lemma RowAfterUpserts(c: Cascade, l: Node, r: Node, x: EntityKey, o: Option<Row>, ops: seq<Op>, identity: bool)
    requires ValidNode(r)
    requires forall op :: op in ops <==> op.Upsert? && WantsUpsert(l, r, op.row) && Identity(op.row.family) == identity
    ensures RowRun(c, x, o, ops) ==
      if x in r.alive && WantsUpsert(l, r, r.alive[x]) && Identity(x.family) == identity then Some(r.alive[x]) else o
  {
    if x in r.alive && WantsUpsert(l, r, r.alive[x]) && Identity(x.family) == identity {
      RowUpserts(c, x, o, ops, r.alive[x]);
    } else {
      RowIdle(c, x, o, ops);
    }
  }

  lemma RowAfterRemoves(c: Cascade, l: Node, r: Node, x: EntityKey, o: Option<Row>, ops: seq<Op>, identity: bool)
    requires o.Some? ==> KeyOf(o.value) == x
    requires forall op :: op in ops <==> op.Remove? && WantsDelete(l, r, op.k) && Identity(op.k.family) == identity
    ensures RowRun(c, x, o, ops) ==
      if o.Some? && Identity(x.family) == identity && (WantsDelete(l, r, x) || Dragged(c, l, r, o.value)) then None else o
  {
    if o.Some? && Identity(x.family) == identity && WantsDelete(l, r, x) {
      RowRemoved(c, x, o.value, ops, x);
    } else if o.Some? && Identity(x.family) == identity && Dragged(c, l, r, o.value) {
      var p :| WantsDelete(l, r, p) && Drags(c, o.value, p);
      DragsWithinStore(c, o.value, p);
      assert Remove(p) in ops;
      RowRemoved(c, x, o.value, ops, p);
    } else {
      forall op | op in ops ensures RowStep(c, x, o, op) == o {
        if o.Some? && Drags(c, o.value, op.k) {
          DragsWithinStore(c, o.value, op.k);
        }
      }
      RowIdle(c, x, o, ops);
    }
  }

  lemma DeadAfter(l: Node, r: Node, x: EntityKey, adopts: seq<Op>, clears: seq<Op>)
    requires forall op :: op in adopts <==> op.Adopt? && WantsAdopt(l, r, op.t)
    requires forall op :: op in clears <==> op.Clear? && WantsClear(l, r, op.k)
    ensures DeadRun(x, DeadRun(x, DeadAt(l, x), adopts), clears) == Outcome(MarkAt(l, x), MarkAt(r, x)).dead
  {
    var res := Resolution(l, r, x);
    if res.adoptTombstoneAt.Some? {
      var t := Tombstone(x, res.adoptTombstoneAt.value);
      assert WantsAdopt(l, r, t);
      DeadAdopted(x, DeadAt(l, x), adopts, t);
      DeadIdle(x, Some(t.deletedAt), clears);
    } else {
      DeadIdle(x, DeadAt(l, x), adopts);
      if res.clearTombstone {
        assert Clear(x) in clears;
        DeadCleared(x, DeadAt(l, x), clears);
      } else {
        DeadIdle(x, DeadAt(l, x), clears);
      }
    }
  }

  /** The row under `x` after one store's upserts and removes. */
  ghost function AfterStore(c: Cascade, l: Node, r: Node, x: EntityKey, o: Option<Row>, identity: bool): Option<Row> {
    var o1 := if x in r.alive && WantsUpsert(l, r, r.alive[x]) && Identity(x.family) == identity then Some(r.alive[x]) else o;
    if o1.Some? && Identity(x.family) == identity && (WantsDelete(l, r, x) || Dragged(c, l, r, o1.value)) then None else o1
  }

  lemma RowAfterIdentity(c: Cascade, l: Node, r: Node, x: EntityKey, o: Option<Row>, ph: Phases, plan: Plan)
    requires ValidNode(r) && PlanMeets(plan, l, r) && ph.Carries(plan)
    requires o.Some? ==> KeyOf(o.value) == x
    ensures RowRun(c, x, o, ph.IdentityOps()) == AfterStore(c, l, r, x, o, true)
  {
    RowConcat(c, x, o, ph.adopts, ph.upserts + (ph.removes + ph.clears));
    RowIdle(c, x, o, ph.adopts);
    RowConcat(c, x, o, ph.upserts, ph.removes + ph.clears);
    RowAfterUpserts(c, l, r, x, o, ph.upserts, true);
    var o1 := RowRun(c, x, o, ph.upserts);
    RowConcat(c, x, o1, ph.removes, ph.clears);
    RowAfterRemoves(c, l, r, x, o1, ph.removes, true);
    RowIdle(c, x, RowRun(c, x, o1, ph.removes), ph.clears);
  }

  lemma RowAfterMetadata(c: Cascade, l: Node, r: Node, x: EntityKey, o: Option<Row>, ph: Phases, plan: Plan)
    requires ValidNode(r) && PlanMeets(plan, l, r) && ph.Carries(plan)
    requires o.Some? ==> KeyOf(o.value) == x
    ensures RowRun(c, x, o, ph.MetadataOps()) == AfterStore(c, l, r, x, o, false)
  {
    RowConcat(c, x, o, ph.metaUpserts, ph.metaRemoves);
    RowAfterUpserts(c, l, r, x, o, ph.metaUpserts, false);
    RowAfterRemoves(c, l, r, x, RowRun(c, x, o, ph.metaUpserts), ph.metaRemoves, false);
  }

  /** The row under `x` once all phases of a plan have run. */
  lemma RowAfterPhases(c: Cascade, l: Node, r: Node, x: EntityKey, ph: Phases, plan: Plan)
    requires ValidNode(l) && ValidNode(r) && PlanMeets(plan, l, r) && ph.Carries(plan)
    ensures RowRun(c, x, RowAt(l, x), ph.Ops()) ==
      if Survives(c, l, r, x) then Candidate(l, r, x) else None
  {
    var o := RowAt(l, x);
    RowConcat(c, x, o, ph.IdentityOps(), ph.MetadataOps());
    RowAfterIdentity(c, l, r, x, o, ph, plan);
    RowAfterMetadata(c, l, r, x, AfterStore(c, l, r, x, o, true), ph, plan);
  }

  lemma DeadAfterPhases(l: Node, r: Node, x: EntityKey, ph: Phases, plan: Plan)
    requires PlanMeets(plan, l, r) && ph.Carries(plan)
    ensures DeadRun(x, DeadAt(l, x), ph.Ops()) == Outcome(MarkAt(l, x), MarkAt(r, x)).dead
  {
    var d := DeadAt(l, x);
    DeadConcat(x, d, ph.IdentityOps(), ph.MetadataOps());
    DeadConcat(x, d, ph.adopts, ph.upserts + (ph.removes + ph.clears));
    var d1 := DeadRun(x, d, ph.adopts);
    DeadConcat(x, d1, ph.upserts, ph.removes + ph.clears);
    DeadIdle(x, d1, ph.upserts);
    DeadConcat(x, d1, ph.removes, ph.clears);
    DeadIdle(x, d1, ph.removes);
    DeadAfter(l, r, x, ph.adopts, ph.clears);
    DeadIdle(x, DeadRun(x, d1, ph.clears), ph.MetadataOps());
  }

  /** Executing any plan that meets the resolutions, in phase order, yields `Merged`. */
  lemma RunIsMerged(c: Cascade, l: Node, r: Node, plan: Plan, ph: Phases)
    requires ValidNode(l) && ValidNode(r) && PlanMeets(plan, l, r) && ph.Carries(plan)
    ensures Run(c, l, ph.Ops()) == Merged(c, l, r)
  {
    var n, m := Run(c, l, ph.Ops()), Merged(c, l, r);
    forall x ensures RowAt(n, x) == RowAt(m, x) && DeadAt(n, x) == DeadAt(m, x) {
      RunPointwise(c, l, ph.Ops(), x);
      RowAfterPhases(c, l, r, x, ph, plan);
      DeadAfterPhases(l, r, x, ph, plan);
    }
    SameNode(n, m);
  }

  lemma SameNode(n: Node, m: Node)
    requires forall x :: RowAt(n, x) == RowAt(m, x) && DeadAt(n, x) == DeadAt(m, x)
    ensures n == m
  {
    assert forall x :: x in n.alive <==> RowAt(n, x).Some?;
    assert forall x :: x in m.alive <==> RowAt(m, x).Some?;
    assert forall x :: x in n.dead <==> DeadAt(n, x).Some?;
    assert forall x :: x in m.dead <==> DeadAt(m, x).Some?;
    assert n.alive == m.alive;
    assert n.dead == m.dead;
  }

  // ----- uploads are only ever inserted -----

  /** The stores' write: an upload row that is already there is kept. */
  function ExecStored(c: Cascade, n: Node, op: Op): Node {
    if op.Upsert? && op.row.family == Upload && KeyOf(op.row) in n.alive then n else Exec(c, n, op)
  }

  function RunStored(c: Cascade, n: Node, ops: seq<Op>): Node
    decreases |ops|
  {
    if ops == [] then n else RunStored(c, ExecStored(c, n, ops[0]), ops[1..])
  }

  /** Upload upserts of `ops` agree with one another and with what `n` holds. */
  ghost predicate UploadsFit(n: Node, ops: seq<Op>) {
    && (forall op :: op in ops && op.Upsert? && op.row.family == Upload && KeyOf(op.row) in n.alive ==>
          n.alive[KeyOf(op.row)] == op.row)
    && (forall a, b :: a in ops && b in ops && a.Upsert? && b.Upsert? && KeyOf(a.row) == KeyOf(b.row) ==> a == b)
  }

  lemma {:induction false} FittingRunsAgree(c: Cascade, n: Node, ops: seq<Op>)
    requires UploadsFit(n, ops)
    ensures RunStored(c, n, ops) == Run(c, n, ops)
    decreases |ops|
  {
    if ops != [] {
      assert ops[0] in ops && forall op :: op in ops[1..] ==> op in ops;
      if ops[0].Upsert? && ops[0].row.family == Upload && KeyOf(ops[0].row) in n.alive {
        assert Exec(c, n, ops[0]).alive == n.alive;
      }
      FittingRunsAgree(c, Exec(c, n, ops[0]), ops[1..]);
    }
  }

  /** An upload that is there and not deleted keeps its row. */
  lemma {:induction false} UploadStays(c: Cascade, n: Node, ops: seq<Op>, k: EntityKey)
    requires k.family == Upload && k in n.alive && n.alive[k].family == Upload && Remove(k) !in ops
    ensures RowAt(RunStored(c, n, ops), k) == Some(n.alive[k])
    decreases |ops|
  {
    if ops != [] {
      assert ops[0] in ops && ops[0] != Remove(k) && Remove(k) !in ops[1..];
      UploadStays(c, ExecStored(c, n, ops[0]), ops[1..], k);
    }
  }

  /** The peer's row of an upload differs from the local one in its start, and is newer. */
  ghost predicate MovedUpload(l: Node, r: Node, row: Row) {
    row.family == Upload && WantsUpsert(l, r, row) && KeyOf(row) in l.alive
  }

  lemma PlanOps(plan: Plan, ph: Phases, op: Op)
    requires ph.Carries(plan)
    ensures op in ph.Ops() && op.Upsert? <==> op.Upsert? && op.row in plan.upserts
    ensures op in ph.Ops() && op.Remove? <==> op.Remove? && op.k in plan.deletes
  {
  }

  /**
   * With the stores' insert-only uploads, executing a plan gives `Merged`
   * exactly when no upload has moved its start: an upload is immutable once
   * created.
   */
  lemma StoredRunExactly(c: Cascade, l: Node, r: Node, plan: Plan, ph: Phases)
    requires ValidNode(l) && ValidNode(r) && PlanMeets(plan, l, r) && ph.Carries(plan)
    ensures RunStored(c, l, ph.Ops()) == Merged(c, l, r) <==> forall row :: !MovedUpload(l, r, row)
  {
    if row :| MovedUpload(l, r, row) {
      PlanOps(plan, ph, Remove(KeyOf(row)));
      UploadStays(c, l, ph.Ops(), KeyOf(row));
      MovedIsAdopted(c, l, r, row);
    } else {
      forall op | op in ph.Ops() && op.Upsert? ensures WantsUpsert(l, r, op.row) && !MovedUpload(l, r, op.row) {
        PlanOps(plan, ph, op);
      }
      FittingRunsAgree(c, l, ph.Ops());
      RunIsMerged(c, l, r, plan, ph);
    }
  }

  lemma MovedIsAdopted(c: Cascade, l: Node, r: Node, row: Row)
    requires MovedUpload(l, r, row)
    ensures RowAt(Merged(c, l, r), KeyOf(row)) == Some(row) && l.alive[KeyOf(row)] != row
  {
    assert Candidate(l, r, KeyOf(row)) == Some(row);
    assert forall p :: !Drags(c, row, p);
  }

  /** Uploads both nodes hold started at one instant. */
  ghost predicate UploadsAgree(l: Node, r: Node) {
    forall k: EntityKey :: k.family == Upload && k in l.alive && k in r.alive ==> At(l.alive[k]) == At(r.alive[k])
  }

  lemma AgreeingUploadsStay(l: Node, r: Node, row: Row)
    requires UploadsAgree(l, r)
    ensures !MovedUpload(l, r, row)
  {
  }

  /** One reconcile pass: plan against the peer's snapshot, then carry the plan out. */
  method ReconcilePeer(c: Cascade, local: Snapshot, remote: Snapshot) returns (n: Node)
    ensures DistinctParts(remote.rows) && UploadsAgree(View(local), View(remote)) ==> n == Merged(c, View(local), View(remote))
  {
    var plan := PlanControlMerge(local, remote);
    n := RunStored(c, View(local), PhasesOf(plan).Ops());
    ghost var l, r := View(local), View(remote);
    if DistinctParts(remote.rows) && UploadsAgree(l, r) {
      ViewIsValid(local);
      ViewIsValid(remote);
      FollowsMeets(plan, local, remote);
      forall row ensures !MovedUpload(l, r, row) {
        AgreeingUploadsStay(l, r, row);
      }
      StoredRunExactly(c, l, r, plan, PhasesOf(plan));
    }
  }
}
