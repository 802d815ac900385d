// A merge plan is applied one committed write at a time, so a crash can stop
// it after any prefix.  What such a prefix leaves under a key of a free family
// is one of three marks, and the identity families never forget a deletion on
// the way.
module CrashSafety {
  import opened Wrappers
  import opened Resolve
  import opened ControlPlane
  import opened ControlMerge
  import opened MergeLaws

  /** The mark under `x` after `ops`, computed at that key alone. */
  function MarkRun(c: Cascade, x: EntityKey, o: Option<Row>, d: Option<Time>, ops: seq<Op>): Mark {
    var o' := RowRun(c, x, o, ops);
    Mark(if o'.Some? then Some(At(o'.value)) else None, DeadRun(x, d, ops))
  }

  // ----- prefixes of the groups -----

  lemma CutAt(a: seq<Op>, b: seq<Op>, i: nat)
    requires i <= |a| + |b|
    ensures i <= |a| ==> (a + b)[..i] == a[..i]
    ensures i > |a| ==> (a + b)[..i] == a + b[..i - |a|]
  {
  }

  /** A stretch of upserts or removes moves the row to its outcome or not at all. */
  ghost predicate RowGroup(c: Cascade, x: EntityKey, o: Option<Row>, goal: Option<Row>, ops: seq<Op>) {
    forall op :: op in ops ==> RowStep(c, x, o, op) in {o, goal} && RowStep(c, x, goal, op) == goal
  }

  lemma {:induction false} RowPrefix(c: Cascade, x: EntityKey, o: Option<Row>, goal: Option<Row>, ops: seq<Op>)
    requires RowGroup(c, x, o, goal, ops)
    ensures RowRun(c, x, o, ops) in {o, goal}
    decreases |ops|
  {
    if ops != [] {
      assert ops[0] in ops;
      assert forall op :: op in ops[1..] ==> op in ops;
      if RowStep(c, x, o, ops[0]) == o {
        RowPrefix(c, x, o, goal, ops[1..]);
      } else {
        RowIdle(c, x, goal, ops[1..]);
      }
    }
  }

  ghost predicate DeadGroup(x: EntityKey, d: Option<Time>, goal: Option<Time>, ops: seq<Op>) {
    forall op :: op in ops ==> DeadStep(x, d, op) in {d, goal} && DeadStep(x, goal, op) == goal
  }

  lemma {:induction false} DeadPrefix(x: EntityKey, d: Option<Time>, goal: Option<Time>, ops: seq<Op>)
    requires DeadGroup(x, d, goal, ops)
    ensures DeadRun(x, d, ops) in {d, goal}
    decreases |ops|
  {
    if ops != [] {
      assert ops[0] in ops;
      assert forall op :: op in ops[1..] ==> op in ops;
      if DeadStep(x, d, ops[0]) == d {
        DeadPrefix(x, d, goal, ops[1..]);
      } else {
        DeadIdle(x, goal, ops[1..]);
      }
    }
  }

  /** What a write group may do to a row of a free family. */
  lemma FreeGroup(c: Cascade, l: Node, r: Node, x: EntityKey, ops: seq<Op>)
    requires ValidNode(l) && ValidNode(r) && Free(c, x.family)
    requires forall op :: op in ops ==>
      || (op.Upsert? && WantsUpsert(l, r, op.row))
      || (op.Remove? && WantsDelete(l, r, op.k))
      || op.Adopt? || op.Clear?
    ensures RowGroup(c, x, RowAt(l, x), Candidate(l, r, x), ops)
  {
    FreeSurvives(c, l, r, x);
    var o, goal := RowAt(l, x), Candidate(l, r, x);
    forall op | op in ops
      ensures RowStep(c, x, o, op) in {o, goal} && RowStep(c, x, goal, op) == goal
    {
      if op.Remove? {
        if o.Some? { FreeRow(c, o.value, op.k); }
        if goal.Some? { FreeRow(c, goal.value, op.k); }
      }
    }
  }

  /** The marks a prefix can leave: untouched, half way, or done. */
  ghost predicate Stage(l: Node, r: Node, x: EntityKey, m: Mark) {
    var before, after := MarkAt(l, x), Outcome(MarkAt(l, x), MarkAt(r, x));
    m == before || m == after || m == HalfWay(before, after, Identity(x.family))
  }

  /** A won delete marks before it removes; a won write writes before it clears, or after. */
  function HalfWay(before: Mark, after: Mark, identity: bool): Mark {
    if after.dead.Some? || !identity then Mark(before.alive, after.dead) else Mark(after.alive, before.dead)
  }

  /** `ops` cut after `i` operations, seen at key `x`. */
  function Cut(c: Cascade, l: Node, x: EntityKey, ops: seq<Op>, i: nat): Mark
    requires i <= |ops|
  {
    MarkRun(c, x, RowAt(l, x), DeadAt(l, x), ops[..i])
  }

  lemma CutIsCrash(c: Cascade, l: Node, x: EntityKey, ops: seq<Op>, i: nat)
    requires i <= |ops|
    ensures MarkAt(Run(c, l, ops[..i]), x) == Cut(c, l, x, ops, i)
  {
    RunPointwise(c, l, ops[..i], x);
  }

  /** The two halves of the operations around the point where `x` is half way. */
  ghost predicate Halves(c: Cascade, l: Node, r: Node, x: EntityKey, first: seq<Op>, second: seq<Op>, rowFirst: bool) {
    var o, goal := RowAt(l, x), Candidate(l, r, x);
    var d, dead := DeadAt(l, x), Outcome(MarkAt(l, x), MarkAt(r, x)).dead;
    && RowGroup(c, x, o, goal, first) && RowGroup(c, x, o, goal, second)
    && DeadGroup(x, d, dead, first) && DeadGroup(x, d, dead, second)
    && (rowFirst ==>
          && RowRun(c, x, o, first) == goal
          && (forall op :: op in first ==> DeadStep(x, d, op) == d))
    && (!rowFirst ==>
          && DeadRun(x, d, first) == dead
          && (forall op :: op in first ==> RowStep(c, x, o, op) == o))
  }

  /** Cutting two such halves anywhere leaves one of the three stages. */
  lemma HalvesStage(c: Cascade, l: Node, r: Node, x: EntityKey, first: seq<Op>, second: seq<Op>, rowFirst: bool, i: nat)
    requires ValidNode(l) && ValidNode(r) && Free(c, x.family)
    requires Halves(c, l, r, x, first, second, rowFirst) && i <= |first| + |second|
    ensures
      var m := Cut(c, l, x, first + second, i);
      var before, after := MarkAt(l, x), Outcome(MarkAt(l, x), MarkAt(r, x));
      m in {before, after, if rowFirst then Mark(after.alive, before.dead) else Mark(before.alive, after.dead)}
  {
    var o, goal := RowAt(l, x), Candidate(l, r, x);
    var d, dead := DeadAt(l, x), Outcome(MarkAt(l, x), MarkAt(r, x)).dead;
    FreeSurvives(c, l, r, x);
    CutAt(first, second, i);
    if i <= |first| {
      var a := first[..i];
      assert forall op :: op in a ==> op in first;
      RowPrefix(c, x, o, goal, a);
      DeadPrefix(x, d, dead, a);
      if rowFirst { DeadIdle(x, d, a); } else { RowIdle(c, x, o, a); }
    } else {
      var b := second[..i - |first|];
      assert forall op :: op in b ==> op in second;
      RowConcat(c, x, o, first, b);
      DeadConcat(x, d, first, b);
      if rowFirst {
        DeadIdle(x, d, first);
        RowIdle(c, x, goal, b);
        DeadPrefix(x, d, dead, b);
      } else {
        RowIdle(c, x, o, first);
        DeadIdle(x, dead, b);
        RowPrefix(c, x, o, goal, b);
      }
    }
  }

  /** What each operation of a plan's phases may do to the tombstone of `x`. */
  lemma FreeDeadGroup(l: Node, r: Node, x: EntityKey, ops: seq<Op>)
    requires forall op :: op in ops ==>
      || (op.Adopt? && WantsAdopt(l, r, op.t))
      || (op.Clear? && WantsClear(l, r, op.k))
      || op.Upsert? || op.Remove?
    ensures DeadGroup(x, DeadAt(l, x), Outcome(MarkAt(l, x), MarkAt(r, x)).dead, ops)
  {
  }

  /** A won delete: the tombstones come first. */
  lemma DeleteHalves(c: Cascade, l: Node, r: Node, x: EntityKey, ph: Phases, plan: Plan, rest: seq<Op>)
    requires ValidNode(l) && ValidNode(r) && Free(c, x.family) && PlanMeets(plan, l, r) && ph.Carries(plan)
    requires Outcome(MarkAt(l, x), MarkAt(r, x)).dead.Some?
    requires forall op :: op in rest ==> op in ph.upserts || op in ph.removes || op in ph.clears || op in ph.metaUpserts || op in ph.metaRemoves
    ensures Halves(c, l, r, x, ph.adopts, rest, false)
  {
    FreeGroup(c, l, r, x, ph.adopts);
    FreeGroup(c, l, r, x, rest);
    FreeDeadGroup(l, r, x, ph.adopts);
    FreeDeadGroup(l, r, x, rest);
    DeadAfter(l, r, x, ph.adopts, ph.clears);
    DeadIdle(x, DeadRun(x, DeadAt(l, x), ph.adopts), ph.clears);
  }

  /** A won write of an identity row: the clears come last. */
  lemma IdentityWriteHalves(c: Cascade, l: Node, r: Node, x: EntityKey, ph: Phases, plan: Plan)
    requires ValidNode(l) && ValidNode(r) && Free(c, x.family) && PlanMeets(plan, l, r) && ph.Carries(plan)
    requires Outcome(MarkAt(l, x), MarkAt(r, x)).dead.None? && Identity(x.family)
    ensures Halves(c, l, r, x, ph.adopts + (ph.upserts + ph.removes), ph.clears + ph.MetadataOps(), true)
  {
    var first, second := ph.adopts + (ph.upserts + ph.removes), ph.clears + ph.MetadataOps();
    FreeGroup(c, l, r, x, first);
    FreeGroup(c, l, r, x, second);
    FreeDeadGroup(l, r, x, first);
    FreeDeadGroup(l, r, x, second);
    FreeSurvives(c, l, r, x);
    var o := RowAt(l, x);
    RowConcat(c, x, o, ph.adopts, ph.upserts + ph.removes);
    RowIdle(c, x, o, ph.adopts);
    RowConcat(c, x, o, ph.upserts, ph.removes);
    RowAfterUpserts(c, l, r, x, o, ph.upserts, true);
    RowAfterRemoves(c, l, r, x, RowRun(c, x, o, ph.upserts), ph.removes, true);
  }

  /** A won write of a metadata row: its tombstone is cleared before it is written. */
  lemma MetadataWriteHalves(c: Cascade, l: Node, r: Node, x: EntityKey, ph: Phases, plan: Plan)
    requires ValidNode(l) && ValidNode(r) && Free(c, x.family) && PlanMeets(plan, l, r) && ph.Carries(plan)
    requires Outcome(MarkAt(l, x), MarkAt(r, x)).dead.None? && !Identity(x.family)
    ensures Halves(c, l, r, x, ph.IdentityOps(), ph.MetadataOps(), false)
  {
    FreeGroup(c, l, r, x, ph.IdentityOps());
    FreeGroup(c, l, r, x, ph.MetadataOps());
    FreeDeadGroup(l, r, x, ph.IdentityOps());
    FreeDeadGroup(l, r, x, ph.MetadataOps());
    DeadAfterPhases(l, r, x, ph, plan);
    DeadConcat(x, DeadAt(l, x), ph.IdentityOps(), ph.MetadataOps());
    DeadIdle(x, DeadRun(x, DeadAt(l, x), ph.IdentityOps()), ph.MetadataOps());
    forall op | op in ph.IdentityOps() ensures RowStep(c, x, RowAt(l, x), op) == RowAt(l, x) {
      if op.Remove? && x in l.alive {
        FreeRow(c, l.alive[x], op.k);
      }
    }
  }

  lemma DeleteStage(c: Cascade, l: Node, r: Node, x: EntityKey, ph: Phases, plan: Plan, i: nat)
    requires ValidNode(l) && ValidNode(r) && Free(c, x.family) && PlanMeets(plan, l, r) && ph.Carries(plan)
    requires i <= |ph.Ops()| && Outcome(MarkAt(l, x), MarkAt(r, x)).dead.Some?
    ensures Stage(l, r, x, Cut(c, l, x, ph.Ops(), i))
  {
    var rest := (ph.upserts + (ph.removes + ph.clears)) + ph.MetadataOps();
    assert ph.Ops() == ph.adopts + rest;
    DeleteHalves(c, l, r, x, ph, plan, rest);
    HalvesStage(c, l, r, x, ph.adopts, rest, false, i);
  }

  lemma IdentityWriteStage(c: Cascade, l: Node, r: Node, x: EntityKey, ph: Phases, plan: Plan, i: nat)
    requires ValidNode(l) && ValidNode(r) && Free(c, x.family) && PlanMeets(plan, l, r) && ph.Carries(plan)
    requires i <= |ph.Ops()| && Outcome(MarkAt(l, x), MarkAt(r, x)).dead.None? && Identity(x.family)
    ensures Stage(l, r, x, Cut(c, l, x, ph.Ops(), i))
  {
    var first, second := ph.adopts + (ph.upserts + ph.removes), ph.clears + ph.MetadataOps();
    assert ph.Ops() == first + second;
    IdentityWriteHalves(c, l, r, x, ph, plan);
    HalvesStage(c, l, r, x, first, second, true, i);
  }

  lemma MetadataWriteStage(c: Cascade, l: Node, r: Node, x: EntityKey, ph: Phases, plan: Plan, i: nat)
    requires ValidNode(l) && ValidNode(r) && Free(c, x.family) && PlanMeets(plan, l, r) && ph.Carries(plan)
    requires i <= |ph.Ops()| && Outcome(MarkAt(l, x), MarkAt(r, x)).dead.None? && !Identity(x.family)
    ensures Stage(l, r, x, Cut(c, l, x, ph.Ops(), i))
  {
    MetadataWriteHalves(c, l, r, x, ph, plan);
    HalvesStage(c, l, r, x, ph.IdentityOps(), ph.MetadataOps(), false, i);
  }

  /** Wherever a crash stops the writes, a free key is in one of its three stages. */
  lemma CrashStage(c: Cascade, l: Node, r: Node, x: EntityKey, ph: Phases, plan: Plan, i: nat)
    requires ValidNode(l) && ValidNode(r) && Free(c, x.family) && PlanMeets(plan, l, r) && ph.Carries(plan)
    requires i <= |ph.Ops()|
    ensures Stage(l, r, x, MarkAt(Run(c, l, ph.Ops()[..i]), x))
  {
    CutIsCrash(c, l, x, ph.Ops(), i);
    if Outcome(MarkAt(l, x), MarkAt(r, x)).dead.Some? {
      DeleteStage(c, l, r, x, ph, plan, i);
    } else if Identity(x.family) {
      IdentityWriteStage(c, l, r, x, ph, plan, i);
    } else {
      MetadataWriteStage(c, l, r, x, ph, plan, i);
    }
  }

  // ----- what the stages promise -----

  /** In the identity store no prefix of the writes forgets anything the node knew. */
  lemma IdentityNeverForgets(c: Cascade, l: Node, r: Node, x: EntityKey, ph: Phases, plan: Plan, i: nat)
    requires ValidNode(l) && ValidNode(r) && Free(c, x.family) && PlanMeets(plan, l, r) && ph.Carries(plan)
    requires i <= |ph.Ops()| && Identity(x.family)
    ensures Level(MarkAt(l, x)) <= Level(MarkAt(Run(c, l, ph.Ops()[..i]), x)) <= Level(Outcome(MarkAt(l, x), MarkAt(r, x)))
  {
    CrashStage(c, l, r, x, ph, plan, i);
    OutcomeIsJoin(MarkAt(l, x), MarkAt(r, x));
  }

  /** The node holds a deletion newer than its row, and the peer re-created the row since. */
  predicate Recreated(l: Mark, r: Mark) {
    Before(l.alive, l.dead) && Resolved(l, r).alive
  }

  /**
   * In the metadata store a crash can forget a deletion the node knew, exactly
   * for the keys the peer re-created: their tombstone is cleared before the new
   * row is written.
   */
  lemma MetadataForgetsExactly(c: Cascade, l: Node, r: Node, x: EntityKey, ph: Phases, plan: Plan)
    requires ValidNode(l) && ValidNode(r) && Free(c, x.family) && PlanMeets(plan, l, r) && ph.Carries(plan)
    requires !Identity(x.family)
    ensures (exists i :: 0 <= i <= |ph.Ops()| && Level(Cut(c, l, x, ph.Ops(), i)) < Level(MarkAt(l, x)))
      <==> Recreated(MarkAt(l, x), MarkAt(r, x))
  {
    OutcomeIsJoin(MarkAt(l, x), MarkAt(r, x));
    if Recreated(MarkAt(l, x), MarkAt(r, x)) {
      MetadataWriteHalves(c, l, r, x, ph, plan);
      var n := |ph.IdentityOps()|;
      assert ph.Ops()[..n] == ph.IdentityOps();
      RowIdle(c, x, RowAt(l, x), ph.IdentityOps());
      assert Level(Cut(c, l, x, ph.Ops(), n)) < Level(MarkAt(l, x));
    } else {
      forall i | 0 <= i <= |ph.Ops()| ensures Level(Cut(c, l, x, ph.Ops(), i)) >= Level(MarkAt(l, x)) {
        CutIsCrash(c, l, x, ph.Ops(), i);
        CrashStage(c, l, r, x, ph, plan, i);
      }
    }
  }
}
