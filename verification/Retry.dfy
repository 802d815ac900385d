// Merging again after a crash: for every key, of every family and whatever the
// cascades, exactly when the retry gives what the uninterrupted merge would
// have given.
module Retry {
  import opened Wrappers
  import opened Resolve
  import opened ControlPlane
  import opened ControlMerge
  import opened MergeLaws
  import opened CrashSafety

  /** The row under `x` once the upserts have run. */
  ghost function Upserted(l: Node, r: Node, x: EntityKey): Option<Row> {
    if x in r.alive && WantsUpsert(l, r, r.alive[x]) then Some(r.alive[x]) else RowAt(l, x)
  }

  /** Some executed remove takes the upserted row under `x` away. */
  ghost predicate TakenBy(c: Cascade, l: Node, r: Node, x: EntityKey, done: seq<Op>, p: EntityKey) {
    Remove(p) in done && Upserted(l, r, x).Some? && Hits(c, Upserted(l, r, x).value, x, p)
  }

  // ----- the three stretches of a store's writes -----

  /** Writes before the removes of `x`'s store: no remove of that store, upserts towards `goal`. */
  ghost predicate Leading(c: Cascade, l: Node, r: Node, x: EntityKey, ops: seq<Op>) {
    && RowGroup(c, x, RowAt(l, x), Upserted(l, r, x), ops)
    && RowRun(c, x, RowAt(l, x), ops) == Upserted(l, r, x)
    && forall p :: Remove(p) in ops ==> Identity(p.family) != Identity(x.family)
  }

  /** Writes after them: none changes a row of `x`'s store. */
  ghost predicate Trailing(c: Cascade, x: EntityKey, ops: seq<Op>) {
    forall op :: op in ops && op.Remove? ==> Identity(op.k.family) != Identity(x.family)
  }

  /** Where the row under `x` stands: still on its way up, or taken away. */
  ghost predicate RowStage(c: Cascade, l: Node, r: Node, x: EntityKey, done: seq<Op>, now: Option<Row>) {
    || (&& now in {RowAt(l, x), Upserted(l, r, x)}
        && (forall p :: Remove(p) in done && Identity(p.family) == Identity(x.family) ==>
              now == Upserted(l, r, x) && !TakenBy(c, l, r, x, done, p)))
    || (now == None && exists p :: TakenBy(c, l, r, x, done, p))
  }

  lemma NotHit(c: Cascade, x: EntityKey, row: Row, p: EntityKey)
    requires KeyOf(row) == x && Identity(p.family) != Identity(x.family)
    ensures !Hits(c, row, x, p)
  {
    if Drags(c, row, p) {
      DragsWithinStore(c, row, p);
    }
  }

  lemma {:induction false} RemovesDecide(c: Cascade, x: EntityKey, row: Row, ops: seq<Op>)
    requires forall op :: op in ops ==> op.Remove?
    ensures RowRun(c, x, Some(row), ops) == if exists p :: Remove(p) in ops && Hits(c, row, x, p) then None else Some(row)
  {
    if p :| Remove(p) in ops && Hits(c, row, x, p) {
      RowRemoved(c, x, row, ops, p);
    } else {
      forall op | op in ops ensures RowStep(c, x, Some(row), op) == Some(row) {
        assert op == Remove(op.k);
      }
      RowIdle(c, x, Some(row), ops);
    }
  }

  /** A cut inside the leading writes. */
  lemma CutLeading(c: Cascade, l: Node, r: Node, x: EntityKey, pre: seq<Op>, i: nat)
    requires Leading(c, l, r, x, pre) && i <= |pre|
    ensures RowStage(c, l, r, x, pre[..i], RowRun(c, x, RowAt(l, x), pre[..i]))
  {
    assert forall op :: op in pre[..i] ==> op in pre;
    RowPrefix(c, x, RowAt(l, x), Upserted(l, r, x), pre[..i]);
  }

  /** The row after `mid` removes and `post` writes that do not matter. */
  lemma AfterRemoves(c: Cascade, x: EntityKey, row: Row, mid: seq<Op>, post: seq<Op>)
    requires KeyOf(row) == x && forall op :: op in mid ==> op.Remove?
    requires Trailing(c, x, post) && forall op :: op in post && op.Upsert? ==> KeyOf(op.row) != x
    ensures RowRun(c, x, Some(row), mid + post) ==
      if exists p :: Remove(p) in mid && Hits(c, row, x, p) then None else Some(row)
  {
    RowConcat(c, x, Some(row), mid, post);
    RemovesDecide(c, x, row, mid);
    var now := RowRun(c, x, Some(row), mid);
    forall op | op in post ensures RowStep(c, x, now, op) == now {
      if op.Remove? { NotHit(c, x, row, op.k); }
    }
    RowIdle(c, x, now, post);
  }

  /** A cut after the leading writes. */
  lemma CutRemoving(c: Cascade, l: Node, r: Node, x: EntityKey, pre: seq<Op>, mid: seq<Op>, post: seq<Op>)
    requires ValidNode(l) && ValidNode(r) && Leading(c, l, r, x, pre)
    requires forall op :: op in mid ==> op.Remove?
    requires Trailing(c, x, post) && forall op :: op in post && op.Upsert? ==> KeyOf(op.row) != x
    ensures RowStage(c, l, r, x, pre + (mid + post), RowRun(c, x, RowAt(l, x), pre + (mid + post)))
  {
    var o1, done := Upserted(l, r, x), pre + (mid + post);
    RowConcat(c, x, RowAt(l, x), pre, mid + post);
    if o1.None? {
      RowIdle(c, x, o1, mid + post);
    } else {
      AfterRemoves(c, x, o1.value, mid, post);
      if p :| Remove(p) in mid && Hits(c, o1.value, x, p) {
        assert TakenBy(c, l, r, x, done, p);
      } else {
        forall p | Remove(p) in done ensures !Hits(c, o1.value, x, p) {
          if Remove(p) !in mid { NotHit(c, x, o1.value, p); }
        }
      }
    }
  }

  // ----- the two stores -----

  lemma IdentityLeading(c: Cascade, l: Node, r: Node, x: EntityKey, ph: Phases, plan: Plan)
    requires ValidNode(l) && ValidNode(r) && PlanMeets(plan, l, r) && ph.Carries(plan) && Identity(x.family)
    ensures Leading(c, l, r, x, ph.adopts + ph.upserts)
  {
    var o := RowAt(l, x);
    RowConcat(c, x, o, ph.adopts, ph.upserts);
    RowIdle(c, x, o, ph.adopts);
    RowAfterUpserts(c, l, r, x, o, ph.upserts, true);
  }

  lemma MetadataLeading(c: Cascade, l: Node, r: Node, x: EntityKey, ph: Phases, plan: Plan)
    requires ValidNode(l) && ValidNode(r) && PlanMeets(plan, l, r) && ph.Carries(plan) && !Identity(x.family)
    ensures Leading(c, l, r, x, ph.IdentityOps() + ph.metaUpserts)
  {
    var o, goal := RowAt(l, x), Upserted(l, r, x);
    forall op | op in ph.IdentityOps() ensures RowStep(c, x, o, op) == o && RowStep(c, x, goal, op) == goal {
      if op.Remove? {
        if o.Some? { NotHit(c, x, o.value, op.k); }
        if goal.Some? { NotHit(c, x, goal.value, op.k); }
      }
    }
    RowConcat(c, x, o, ph.IdentityOps(), ph.metaUpserts);
    RowIdle(c, x, o, ph.IdentityOps());
    RowAfterUpserts(c, l, r, x, o, ph.metaUpserts, false);
  }

  /** A stretch `pre + mid + post` cut anywhere. */
  lemma CutStage(c: Cascade, l: Node, r: Node, x: EntityKey, pre: seq<Op>, mid: seq<Op>, post: seq<Op>, i: nat)
    requires ValidNode(l) && ValidNode(r) && Leading(c, l, r, x, pre)
    requires forall op :: op in mid ==> op.Remove?
    requires Trailing(c, x, post) && forall op :: op in post && op.Upsert? ==> KeyOf(op.row) != x
    requires i <= |pre| + (|mid| + |post|)
    ensures var done := (pre + (mid + post))[..i]; RowStage(c, l, r, x, done, RowRun(c, x, RowAt(l, x), done))
  {
    CutAt(pre, mid + post, i);
    if i <= |pre| {
      CutLeading(c, l, r, x, pre, i);
    } else {
      CutAt(mid, post, i - |pre|);
      var m, p := if i - |pre| <= |mid| then mid[..i - |pre|] else mid, if i - |pre| <= |mid| then [] else post[..i - |pre| - |mid|];
      assert (mid + post)[..i - |pre|] == m + p;
      assert forall op :: op in m ==> op in mid;
      assert forall op :: op in p ==> op in post;
      CutRemoving(c, l, r, x, pre, m, p);
    }
  }

  lemma IdentityCrashRow(c: Cascade, l: Node, r: Node, x: EntityKey, ph: Phases, plan: Plan, i: nat)
    requires ValidNode(l) && ValidNode(r) && PlanMeets(plan, l, r) && ph.Carries(plan) && i <= |ph.Ops()| && Identity(x.family)
    ensures RowStage(c, l, r, x, ph.Ops()[..i], RowRun(c, x, RowAt(l, x), ph.Ops()[..i]))
  {
    IdentityLeading(c, l, r, x, ph, plan);
    var pre, post := ph.adopts + ph.upserts, ph.clears + ph.MetadataOps();
    assert ph.Ops() == pre + (ph.removes + post);
    CutStage(c, l, r, x, pre, ph.removes, post, i);
  }

  lemma MetadataCrashRow(c: Cascade, l: Node, r: Node, x: EntityKey, ph: Phases, plan: Plan, i: nat)
    requires ValidNode(l) && ValidNode(r) && PlanMeets(plan, l, r) && ph.Carries(plan) && i <= |ph.Ops()| && !Identity(x.family)
    ensures RowStage(c, l, r, x, ph.Ops()[..i], RowRun(c, x, RowAt(l, x), ph.Ops()[..i]))
  {
    MetadataLeading(c, l, r, x, ph, plan);
    var pre := ph.IdentityOps() + ph.metaUpserts;
    assert ph.Ops() == pre + (ph.metaRemoves + []);
    CutStage(c, l, r, x, pre, ph.metaRemoves, [], i);
  }

  /** Wherever the writes stop, the row under any key is in one of its stages. */
  lemma CrashRow(c: Cascade, l: Node, r: Node, x: EntityKey, ph: Phases, plan: Plan, i: nat)
    requires ValidNode(l) && ValidNode(r) && PlanMeets(plan, l, r) && ph.Carries(plan) && i <= |ph.Ops()|
    ensures RowStage(c, l, r, x, ph.Ops()[..i], RowAt(Run(c, l, ph.Ops()[..i]), x))
  {
    RunPointwise(c, l, ph.Ops()[..i], x);
    if Identity(x.family) {
      IdentityCrashRow(c, l, r, x, ph, plan, i);
    } else {
      MetadataCrashRow(c, l, r, x, ph, plan, i);
    }
  }

  lemma CrashDead(c: Cascade, l: Node, r: Node, x: EntityKey, ph: Phases, plan: Plan, i: nat)
    requires PlanMeets(plan, l, r) && ph.Carries(plan) && i <= |ph.Ops()|
    ensures DeadAt(Run(c, l, ph.Ops()[..i]), x) in {DeadAt(l, x), Outcome(MarkAt(l, x), MarkAt(r, x)).dead}
  {
    var done := ph.Ops()[..i];
    RunPointwise(c, l, done, x);
    assert forall op :: op in done ==> op in ph.Ops();
    FreeDeadGroup(l, r, x, done);
    DeadPrefix(x, DeadAt(l, x), Outcome(MarkAt(l, x), MarkAt(r, x)).dead, done);
  }

  // ----- what a crash leaves -----

  /** What is known of a node that stopped after the writes `done`. */
  ghost predicate Crashed(c: Cascade, l: Node, r: Node, n: Node, done: seq<Op>) {
    && (forall x {:trigger RowAt(n, x)} :: RowStage(c, l, r, x, done, RowAt(n, x)))
    && (forall x {:trigger DeadAt(n, x)} :: DeadAt(n, x) in {DeadAt(l, x), Outcome(MarkAt(l, x), MarkAt(r, x)).dead})
    && (forall p :: Remove(p) in done ==> WantsDelete(l, r, p))
    && (forall p, x {:trigger Remove(p) in done, DeadAt(n, x)} ::
          Remove(p) in done && !Identity(p.family) ==> DeadAt(n, x) == Outcome(MarkAt(l, x), MarkAt(r, x)).dead)
  }

  lemma MetadataStarted(ph: Phases, plan: Plan, i: nat, p: EntityKey)
    requires ph.Carries(plan) && i <= |ph.Ops()| && Remove(p) in ph.Ops()[..i] && !Identity(p.family)
    ensures i > |ph.IdentityOps()|
  {
    var first := ph.IdentityOps();
    CutAt(first, ph.MetadataOps(), i);
    assert Remove(p) !in first;
  }

  /** The metadata removes come last: by then every tombstone is in place. */
  lemma TombstonesInPlace(c: Cascade, l: Node, r: Node, x: EntityKey, ph: Phases, plan: Plan, i: nat, p: EntityKey)
    requires PlanMeets(plan, l, r) && ph.Carries(plan) && i <= |ph.Ops()|
    requires Remove(p) in ph.Ops()[..i] && !Identity(p.family)
    ensures DeadAt(Run(c, l, ph.Ops()[..i]), x) == Outcome(MarkAt(l, x), MarkAt(r, x)).dead
  {
    var first, second := ph.IdentityOps(), ph.MetadataOps();
    CutAt(first, second, i);
    MetadataStarted(ph, plan, i, p);
    var rest := second[..i - |first|];
    assert forall op :: op in rest ==> op in second;
    RunPointwise(c, l, ph.Ops()[..i], x);
    DeadConcat(x, DeadAt(l, x), first, rest);
    DeadAfterIdentity(l, r, x, ph, plan);
    DeadIdle(x, DeadRun(x, DeadAt(l, x), first), rest);
  }

  lemma DeadAfterIdentity(l: Node, r: Node, x: EntityKey, ph: Phases, plan: Plan)
    requires PlanMeets(plan, l, r) && ph.Carries(plan)
    ensures DeadRun(x, DeadAt(l, x), ph.IdentityOps()) == Outcome(MarkAt(l, x), MarkAt(r, x)).dead
  {
    var first, second := ph.IdentityOps(), ph.MetadataOps();
    DeadConcat(x, DeadAt(l, x), first, second);
    DeadAfterPhases(l, r, x, ph, plan);
    DeadIdle(x, DeadRun(x, DeadAt(l, x), first), second);
  }

  lemma CrashLeaves(c: Cascade, l: Node, r: Node, ph: Phases, plan: Plan, i: nat)
    requires ValidNode(l) && ValidNode(r) && PlanMeets(plan, l, r) && ph.Carries(plan) && i <= |ph.Ops()|
    ensures Crashed(c, l, r, Run(c, l, ph.Ops()[..i]), ph.Ops()[..i])
  {
    var done := ph.Ops()[..i];
    var n := Run(c, l, done);
    forall x ensures RowStage(c, l, r, x, done, RowAt(n, x)) {
      CrashRow(c, l, r, x, ph, plan, i);
    }
    forall x ensures DeadAt(n, x) in {DeadAt(l, x), Outcome(MarkAt(l, x), MarkAt(r, x)).dead} {
      CrashDead(c, l, r, x, ph, plan, i);
    }
    forall p | Remove(p) in done ensures WantsDelete(l, r, p) {
      assert Remove(p) in ph.Ops();
      PlanOps(plan, ph, Remove(p));
    }
    forall p, x | Remove(p) in done && !Identity(p.family) ensures DeadAt(n, x) == Outcome(MarkAt(l, x), MarkAt(r, x)).dead {
      TombstonesInPlace(c, l, r, x, ph, plan, i, p);
    }
  }

  /** Any mix of old and new marks resolves as before. */
  lemma MixedMark(l: Mark, r: Mark, m: Mark)
    requires m.alive in {l.alive, Outcome(l, r).alive} && m.dead in {l.dead, Outcome(l, r).dead}
    ensures Outcome(m, r) == Outcome(l, r) && Resolved(m, r).alive == Resolved(l, r).alive
  {
  }

  /** A row no parent takes away: the crash left the old one or the wanted one. */
  lemma UndraggedRow(c: Cascade, l: Node, r: Node, n: Node, done: seq<Op>, x: EntityKey)
    requires ValidNode(l) && ValidNode(r) && Crashed(c, l, r, n, done) && Undragged(c, l, r, x)
    ensures RowAt(n, x) in {RowAt(l, x), Candidate(l, r, x)}
  {
    assert RowStage(c, l, r, x, done, RowAt(n, x));
    if p :| TakenBy(c, l, r, x, done, p) {
      assert p == x || Drags(c, Upserted(l, r, x).value, p);
    }
  }

  /** A free row that is to be deleted is there until its own remove runs. */
  lemma StillThere(c: Cascade, l: Node, r: Node, n: Node, done: seq<Op>, p: EntityKey)
    requires ValidNode(l) && ValidNode(r) && Crashed(c, l, r, n, done) && Free(c, p.family)
    requires WantsDelete(l, r, p) && Remove(p) !in done
    ensures p in n.alive
  {
    assert RowStage(c, l, r, p, done, RowAt(n, p));
    assert Upserted(l, r, p) == RowAt(l, p);
    forall q ensures !TakenBy(c, l, r, p, done, q) {
      FreeRow(c, l.alive[p], q);
    }
  }

  lemma FreeCandidateMark(c: Cascade, l: Node, r: Node, p: EntityKey)
    requires ValidNode(l) && ValidNode(r) && Free(c, p.family)
    ensures Outcome(MarkAt(l, p), MarkAt(r, p)).alive == if Candidate(l, r, p).Some? then Some(At(Candidate(l, r, p).value)) else None
  {
    FreeSurvives(c, l, r, p);
  }

  /** A parent resolves as before, and is deleted again unless it already was. */
  lemma ParentAgain(c: Cascade, l: Node, r: Node, n: Node, done: seq<Op>, p: EntityKey)
    requires ValidNode(l) && ValidNode(r) && Crashed(c, l, r, n, done) && Free(c, p.family)
    ensures Resolution(n, r, p).alive == Resolution(l, r, p).alive
    ensures WantsDelete(n, r, p) ==> WantsDelete(l, r, p)
    ensures WantsDelete(l, r, p) && Remove(p) !in done ==> WantsDelete(n, r, p)
  {
    FreeUndragged(c, l, r, p);
    UndraggedRow(c, l, r, n, done, p);
    FreeCandidateMark(c, l, r, p);
    assert DeadAt(n, p) in {DeadAt(l, p), Outcome(MarkAt(l, p), MarkAt(r, p)).dead};
    MixedMark(MarkAt(l, p), MarkAt(r, p), MarkAt(n, p));
    DeleteByMarks(MarkAt(l, p), MarkAt(r, p));
    DeleteByMarks(MarkAt(n, p), MarkAt(r, p));
    if WantsDelete(l, r, p) && Remove(p) !in done {
      StillThere(c, l, r, n, done, p);
    }
  }

  lemma DeleteByMarks(l: Mark, r: Mark)
    ensures Resolved(l, r).deleteLocal <==> l.alive.Some? && Outcome(l, r).dead.Some?
  {
  }

  lemma ParentsAgain(c: Cascade, l: Node, r: Node, n: Node, done: seq<Op>, x: EntityKey)
    requires ValidNode(l) && ValidNode(r) && Crashed(c, l, r, n, done)
    ensures SameParents(l, r, n, x)
  {
    if x in r.alive {
      forall p | p in Parents(r.alive[x]) ensures Resolution(n, r, p).alive == Resolution(l, r, p).alive {
        ParentsAreFree(c, r.alive[x], p);
        ParentAgain(c, l, r, n, done, p);
      }
    }
  }

  // ----- retrying -----

  /** Two nodes hold the same under `x`. */
  predicate SameAt(a: Node, b: Node, x: EntityKey) {
    RowAt(a, x) == RowAt(b, x) && DeadAt(a, x) == DeadAt(b, x)
  }

  /** On rows and marks alone: from the old or the wanted row, the same row is wanted again. */
  lemma WantedAgain(a: Option<Row>, b: Option<Row>, o: Option<Row>, l: Mark, r: Mark, m: Mark, parents: bool)
    requires l.alive == StampOf(a) && r.alive == StampOf(b) && m.alive == StampOf(o)
    requires o in {a, Wanted(a, b, Resolved(l, r), parents)} && m.dead in {l.dead, Outcome(l, r).dead}
    ensures Wanted(o, b, Resolved(m, r), parents) == Wanted(a, b, Resolved(l, r), parents)
    ensures Outcome(m, r).dead == Outcome(l, r).dead
  {
  }

  lemma SameCandidate(l: Node, r: Node, n: Node, x: EntityKey)
    requires ValidNode(l) && ValidNode(r) && SameParents(l, r, n, x)
    requires RowAt(n, x) in {RowAt(l, x), Candidate(l, r, x)}
    requires DeadAt(n, x) in {DeadAt(l, x), Outcome(MarkAt(l, x), MarkAt(r, x)).dead}
    ensures Candidate(n, r, x) == Candidate(l, r, x)
    ensures Outcome(MarkAt(n, x), MarkAt(r, x)).dead == Outcome(MarkAt(l, x), MarkAt(r, x)).dead
  {
    CandidateIsWanted(l, r, x);
    CandidateIsWanted(n, r, x);
    assert ParentsAlive(n, r, x) == ParentsAlive(l, r, x);
    WantedAgain(RowAt(l, x), RowAt(r, x), RowAt(n, x), MarkAt(l, x), MarkAt(r, x), MarkAt(n, x), ParentsAlive(l, r, x));
  }

  /** Where no parent takes the row away, the retry gives the uninterrupted result. */
  lemma RetryUndragged(c: Cascade, l: Node, r: Node, n: Node, done: seq<Op>, x: EntityKey)
    requires ValidNode(l) && ValidNode(r) && Crashed(c, l, r, n, done) && Undragged(c, l, r, x)
    ensures SameAt(Merged(c, n, r), Merged(c, l, r), x)
  {
    UndraggedRow(c, l, r, n, done, x);
    ParentsAgain(c, l, r, n, done, x);
    assert DeadAt(n, x) in {DeadAt(l, x), Outcome(MarkAt(l, x), MarkAt(r, x)).dead};
    SameCandidate(l, r, n, x);
    if Candidate(l, r, x).Some? {
      forall p | Drags(c, Candidate(l, r, x).value, p) ensures !WantsDelete(n, r, p) {
        DraggersAreFree(c, Candidate(l, r, x).value, p);
        ParentAgain(c, l, r, n, done, p);
      }
    }
    MergedAt(c, n, r, x);
    MergedAt(c, l, r, x);
  }

  /** What the retry finds under a dragged key once its row is gone. */
  ghost predicate Lingers(c: Cascade, l: Node, r: Node, x: EntityKey) {
    !Undragged(c, l, r, x) && Identity(x.family) && Before(MarkAt(r, x).alive, MarkAt(l, x).dead)
  }

  /** The row is still there: it is wanted, and taken away, once more. */
  lemma RetryStillThere(c: Cascade, l: Node, r: Node, n: Node, done: seq<Op>, x: EntityKey)
    requires ValidNode(l) && ValidNode(r) && Crashed(c, l, r, n, done) && !Undragged(c, l, r, x)
    requires forall p :: !TakenBy(c, l, r, x, done, p)
    ensures SameAt(Merged(c, n, r), Merged(c, l, r), x)
  {
    var o := Candidate(l, r, x).value;
    var p :| WantsDelete(l, r, p) && Drags(c, o, p);
    assert Upserted(l, r, x) == Some(o) && !TakenBy(c, l, r, x, done, p);
    DraggersAreFree(c, o, p);
    ParentAgain(c, l, r, n, done, p);
    ParentsAgain(c, l, r, n, done, x);
    assert RowStage(c, l, r, x, done, RowAt(n, x)) && DeadAt(n, x) in {DeadAt(l, x), Outcome(MarkAt(l, x), MarkAt(r, x)).dead};
    SameCandidate(l, r, n, x);
    MergedAt(c, n, r, x);
    MergedAt(c, l, r, x);
  }

  /** The row is gone: what the peer says, and a tombstone not yet cleared, decide. */
  lemma RetryGone(c: Cascade, l: Node, r: Node, n: Node, x: EntityKey)
    requires ValidNode(l) && ValidNode(r) && !Undragged(c, l, r, x) && SameParents(l, r, n, x)
    requires RowAt(n, x) == None && DeadAt(n, x) in {DeadAt(l, x), None} && (!Identity(x.family) ==> DeadAt(n, x) == None)
    requires !Resurfaces(c, l, r, x) && !Lingers(c, l, r, x)
    ensures SameAt(Merged(c, n, r), Merged(c, l, r), x)
  {
    if x in r.alive && x.family != Credential {
      DraggedChildRefused(c, l, r, n, x);
    }
    assert Candidate(n, r, x) == None;
    MergedAt(c, n, r, x);
    MergedAt(c, l, r, x);
  }

  /** Wherever the crash came, the retry gives the uninterrupted result under `x`, unless something resurfaces or lingers. */
  lemma RetryConverges(c: Cascade, l: Node, r: Node, n: Node, done: seq<Op>, x: EntityKey)
    requires ValidNode(l) && ValidNode(r) && Crashed(c, l, r, n, done)
    requires !Resurfaces(c, l, r, x) && !Lingers(c, l, r, x)
    ensures SameAt(Merged(c, n, r), Merged(c, l, r), x)
  {
    if Undragged(c, l, r, x) {
      RetryUndragged(c, l, r, n, done, x);
    } else if p :| TakenBy(c, l, r, x, done, p) {
      ParentsAgain(c, l, r, n, done, x);
      TakenLeavesNothing(c, l, r, n, done, x, p);
      RetryGone(c, l, r, n, x);
    } else {
      RetryStillThere(c, l, r, n, done, x);
    }
  }

  lemma TakenLeavesNothing(c: Cascade, l: Node, r: Node, n: Node, done: seq<Op>, x: EntityKey, p: EntityKey)
    requires ValidNode(l) && ValidNode(r) && Crashed(c, l, r, n, done) && !Undragged(c, l, r, x) && TakenBy(c, l, r, x, done, p)
    ensures RowAt(n, x) == None && DeadAt(n, x) in {DeadAt(l, x), None} && (!Identity(x.family) ==> DeadAt(n, x) == None)
  {
    assert RowStage(c, l, r, x, done, RowAt(n, x)) && DeadAt(n, x) in {DeadAt(l, x), Outcome(MarkAt(l, x), MarkAt(r, x)).dead};
    assert Outcome(MarkAt(l, x), MarkAt(r, x)).dead == None;
    if Identity(p.family) != Identity(x.family) {
      NotHit(c, x, Upserted(l, r, x).value, p);
    }
  }

  // ----- exactly when -----

  lemma DraggedIsAlive(c: Cascade, l: Node, r: Node, x: EntityKey)
    requires ValidNode(l) && ValidNode(r) && !Undragged(c, l, r, x)
    ensures Resolution(l, r, x).alive && Outcome(MarkAt(l, x), MarkAt(r, x)).dead == None
    ensures Upserted(l, r, x) == Candidate(l, r, x)
  {
  }

  /** A node without row or tombstone takes what the peer has to say. */
  lemma PeerSpeaks(c: Cascade, m: Node, r: Node, x: EntityKey)
    requires ValidNode(r) && MarkAt(m, x) == Mark(None, None) && Undragged(c, m, r, x)
    requires Before(MarkAt(r, x).alive, MarkAt(r, x).dead) || (x.family == Credential && x in r.alive)
    ensures !SameAt(Merged(c, m, r), m, x)
  {
    MergedAt(c, m, r, x);
    CandidateIsWanted(m, r, x);
    if x.family == Credential && x in r.alive {
      assert Parents(r.alive[x]) == {};
    }
  }

  /** A retry after the last write brings back what the peer still says. */
  lemma ResurfacingChanges(c: Cascade, l: Node, r: Node, x: EntityKey)
    requires ValidNode(l) && ValidNode(r) && Resurfaces(c, l, r, x)
    ensures var m := Merged(c, l, r); !SameAt(Merged(c, m, r), m, x)
  {
    DraggedIsAlive(c, l, r, x);
    MergedAt(c, l, r, x);
    NothingDragged(c, l, r, x);
    PeerSpeaks(c, Merged(c, l, r), r, x);
  }

  /** Among the identity removes is one that takes a lingering row away. */
  lemma LingeringRow(c: Cascade, l: Node, r: Node, x: EntityKey, ph: Phases, plan: Plan)
    requires ValidNode(l) && ValidNode(r) && PlanMeets(plan, l, r) && ph.Carries(plan) && Lingers(c, l, r, x)
    ensures exists p: EntityKey :: Identity(p.family) && TakenBy(c, l, r, x, ph.removes, p)
  {
    var o := Candidate(l, r, x).value;
    var p :| WantsDelete(l, r, p) && Drags(c, o, p);
    DraggedIsAlive(c, l, r, x);
    DragsWithinStore(c, o, p);
    assert Remove(p) in ph.removes;
    assert TakenBy(c, l, r, x, ph.removes, p);
  }

  /** No write before the clears touches its tombstone. */
  lemma LingeringDead(c: Cascade, l: Node, r: Node, x: EntityKey, ph: Phases, plan: Plan)
    requires ValidNode(l) && ValidNode(r) && PlanMeets(plan, l, r) && ph.Carries(plan) && Lingers(c, l, r, x)
    ensures DeadRun(x, DeadAt(l, x), ph.adopts + (ph.upserts + ph.removes)) == DeadAt(l, x)
  {
    DraggedIsAlive(c, l, r, x);
    DeadIdle(x, DeadAt(l, x), ph.adopts + (ph.upserts + ph.removes));
  }

  /** Stopped between the removes and the clears, a lingering key has lost its row and kept its tombstone. */
  lemma LingeringStop(c: Cascade, l: Node, r: Node, x: EntityKey, ph: Phases, plan: Plan) returns (i: nat)
    requires ValidNode(l) && ValidNode(r) && PlanMeets(plan, l, r) && ph.Carries(plan) && Lingers(c, l, r, x)
    ensures i <= |ph.Ops()|
    ensures var n := Run(c, l, ph.Ops()[..i]); RowAt(n, x) == None && DeadAt(n, x) == DeadAt(l, x)
  {
    var done := ph.adopts + (ph.upserts + ph.removes);
    i := |done|;
    assert ph.Ops()[..i] == done;
    LingeringRow(c, l, r, x, ph, plan);
    var p: EntityKey :| Identity(p.family) && TakenBy(c, l, r, x, ph.removes, p);
    assert TakenBy(c, l, r, x, done, p);
    CrashRow(c, l, r, x, ph, plan, i);
    RunPointwise(c, l, done, x);
    LingeringDead(c, l, r, x, ph, plan);
  }

  lemma LingeringChanges(c: Cascade, l: Node, r: Node, n: Node, x: EntityKey)
    requires ValidNode(l) && ValidNode(r) && Lingers(c, l, r, x) && RowAt(n, x) == None && DeadAt(n, x) == DeadAt(l, x)
    ensures !SameAt(Merged(c, n, r), Merged(c, l, r), x)
  {
    DraggedIsAlive(c, l, r, x);
    MergedAt(c, n, r, x);
    MergedAt(c, l, r, x);
    assert Outcome(MarkAt(n, x), MarkAt(r, x)).dead.Some?;
  }

  /** Stopping after `i` writes and merging again gives what the uninterrupted merge gives under `x`. */
  ghost predicate RetrySame(c: Cascade, l: Node, r: Node, x: EntityKey, ops: seq<Op>, i: nat)
    requires i <= |ops|
  {
    SameAt(Merged(c, Run(c, l, ops[..i]), r), Merged(c, l, r), x)
  }

  /**
   * For every key of every family, and whatever the cascades: a retry gives the
   * uninterrupted result after every possible crash exactly when the key
   * neither resurfaces nor lingers.  Only rows taken away with a parent can:
   * they resurface when the peer still has something to say about them, and
   * linger when the node's own tombstone outlives the row it stood beside.
   */
  lemma RetryExactly(c: Cascade, l: Node, r: Node, x: EntityKey, ph: Phases, plan: Plan)
    requires ValidNode(l) && ValidNode(r) && PlanMeets(plan, l, r) && ph.Carries(plan)
    ensures (forall i :: 0 <= i <= |ph.Ops()| ==> RetrySame(c, l, r, x, ph.Ops(), i))
      <==> !Resurfaces(c, l, r, x) && !Lingers(c, l, r, x)
  {
    if Resurfaces(c, l, r, x) {
      assert ph.Ops()[..|ph.Ops()|] == ph.Ops();
      RunIsMerged(c, l, r, plan, ph);
      ResurfacingChanges(c, l, r, x);
      assert !RetrySame(c, l, r, x, ph.Ops(), |ph.Ops()|);
    } else if Lingers(c, l, r, x) {
      var i := LingeringStop(c, l, r, x, ph, plan);
      LingeringChanges(c, l, r, Run(c, l, ph.Ops()[..i]), x);
      assert !RetrySame(c, l, r, x, ph.Ops(), i);
    } else {
      forall i | 0 <= i <= |ph.Ops()| ensures RetrySame(c, l, r, x, ph.Ops(), i) {
        CrashLeaves(c, l, r, ph, plan, i);
        RetryConverges(c, l, r, Run(c, l, ph.Ops()[..i]), ph.Ops()[..i], x);
      }
    }
  }

  /** In particular always, row and tombstone, for the families no cascade touches. */
  lemma FreeRetry(c: Cascade, l: Node, r: Node, x: EntityKey, ph: Phases, plan: Plan, i: nat)
    requires ValidNode(l) && ValidNode(r) && PlanMeets(plan, l, r) && ph.Carries(plan)
    requires Free(c, x.family) && i <= |ph.Ops()|
    ensures RetrySame(c, l, r, x, ph.Ops(), i)
  {
    FreeUndragged(c, l, r, x);
    RetryExactly(c, l, r, x, ph, plan);
  }
}
