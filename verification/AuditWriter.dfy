// The audit batch writer: it collects entries into batches, driven by
// its channel, a timer and a drain signal.
module AuditWriter {

  type Entry = string

  /**
   * What the writer observes at an await point: an entry, the closed channel, the
   * end of the window, a change of the drain flag, or the loss of its sender.
   */
  datatype Event = Received(e: Entry) | Closed | Expired | Drain(on: bool) | DrainLost

  /** `filling`: inside the collecting loop; `done`: the writer has ended. */
  datatype Writer = Writer(batch: seq<Entry>, drained: bool, watching: bool, filling: bool, done: bool, handed: seq<seq<Entry>>)

  function Start(drained: bool): Writer {
    Writer([], drained, true, false, false, [])
  }

  /** The events the writer waits for where it is. */
  predicate Enabled(t: Writer, ev: Event) {
    && !t.done
    && match ev
       case Received(_) => true
       case Closed => true
       case Expired => t.filling
       case Drain(_) => t.filling && t.watching
       case DrainLost => t.filling && t.watching
  }

  /** Hands the batch over and goes back to waiting for a first entry. */
  function Flush(t: Writer): Writer {
    t.(batch := [], filling := false, handed := t.handed + [t.batch])
  }

  /** Stays in the collecting loop while its condition holds, else flushes. */
  function Collect(t: Writer, maxBatch: nat): Writer {
    if |t.batch| < maxBatch && !t.drained then t.(filling := true) else Flush(t)
  }

  function Step(t: Writer, ev: Event, maxBatch: nat): Writer {
    match ev
    case Received(e) => Collect(t.(batch := t.batch + [e]), maxBatch)
    case Closed => (if t.filling then Flush(t) else t).(done := true)
    case Expired => Flush(t)
    case Drain(on) => Collect(t.(drained := on), maxBatch)
    case DrainLost => t.(watching := false)
  }

  ghost predicate ValidRun(t: Writer, evs: seq<Event>, maxBatch: nat)
    decreases |evs|
  {
    evs == [] || (Enabled(t, evs[0]) && ValidRun(Step(t, evs[0], maxBatch), evs[1..], maxBatch))
  }

  function Run(t: Writer, evs: seq<Event>, maxBatch: nat): Writer
    decreases |evs|
  {
    if evs == [] then t else Run(Step(t, evs[0], maxBatch), evs[1..], maxBatch)
  }

  /** From `t`, the rest of the script is what the writer observes and leads to `goal`. */
  ghost predicate Continues(t: Writer, script: seq<Event>, i: nat, maxBatch: nat, goal: Writer)
    requires i <= |script|
  {
    ValidRun(t, script[i..], maxBatch) && Run(t, script[i..], maxBatch) == goal
  }

  lemma Observe(t: Writer, script: seq<Event>, i: nat, maxBatch: nat, goal: Writer)
    requires i < |script| && Continues(t, script, i, maxBatch, goal)
    ensures Enabled(t, script[i]) && Continues(Step(t, script[i], maxBatch), script, i + 1, maxBatch, goal)
  {
    assert script[i..][0] == script[i] && script[i..][1..] == script[i + 1..];
  }

  /** Once the writer has ended the script is over, and the writer is the goal. */
  lemma Ended(t: Writer, script: seq<Event>, i: nat, maxBatch: nat, goal: Writer)
    requires i <= |script| && Continues(t, script, i, maxBatch, goal) && (t.done || i == |script|)
    ensures t == goal
  {
    if i < |script| {
      Observe(t, script, i, maxBatch, goal);
    }
  }

  /**
   * The writer itself, fed by a script of what it observes.  The script may stop
   * anywhere; `t` is the writer's state at that point.
   */
  method RunWriter(script: seq<Event>, maxBatch: nat, drainedAtStart: bool) returns (t: Writer)
    requires ValidRun(Start(drainedAtStart), script, maxBatch)
    ensures t == Run(Start(drainedAtStart), script, maxBatch)
  {
    var batch: seq<Entry> := [];
    var drained, watching := drainedAtStart, true;
    var handed: seq<seq<Entry>> := [];
    var i := 0;
    ghost var goal := Run(Start(drainedAtStart), script, maxBatch);
    assert script[0..] == script;
    while i < |script|
      invariant 0 <= i <= |script| && batch == []
      invariant Continues(Writer(batch, drained, watching, false, false, handed), script, i, maxBatch, goal)
    {
      // wait for the first entry or the end of the channel
      Observe(Writer(batch, drained, watching, false, false, handed), script, i, maxBatch, goal);
      if script[i].Closed? {
        t := Writer(batch, drained, watching, false, true, handed);
        Ended(t, script, i + 1, maxBatch, goal);
        return;
      }
      batch := batch + [script[i].e];
      i := i + 1;
      var closed, stop := false, false;
      // collect until the batch is full, the window ends or draining starts
      while |batch| < maxBatch && !drained && !stop && i < |script|
        invariant 0 <= i <= |script|
        invariant closed ==> stop
        invariant !stop ==> Continues(Collect(Writer(batch, drained, watching, false, false, handed), maxBatch), script, i, maxBatch, goal)
        invariant stop ==>
          Continues(Flush(Writer(batch, drained, watching, true, false, handed)).(done := closed), script, i, maxBatch, goal)
        decreases |script| - i
      {
        Observe(Collect(Writer(batch, drained, watching, false, false, handed), maxBatch), script, i, maxBatch, goal);
        match script[i] {
          case Received(e) => batch := batch + [e];
          case Closed => closed, stop := true, true;
          case Expired => stop := true;
          case Drain(on) => drained := on;
          case DrainLost => watching := false;
        }
        i := i + 1;
      }
      if !stop && |batch| < maxBatch && !drained {
        t := Writer(batch, drained, watching, true, false, handed);
        Ended(t, script, i, maxBatch, goal);
        return;
      }
      handed := handed + [batch];
      batch := [];
      if closed {
        t := Writer(batch, drained, watching, false, true, handed);
        Ended(t, script, i, maxBatch, goal);
        return;
      }
    }
    t := Writer(batch, drained, watching, false, false, handed);
    Ended(t, script, i, maxBatch, goal);
  }

  // ----- what every run keeps -----

  function Concat(bs: seq<seq<Entry>>): seq<Entry> {
    if bs == [] then [] else Concat(bs[..|bs| - 1]) + bs[|bs| - 1]
  }

  /** The entries a run received, in order. */
  function ReceivedIn(evs: seq<Event>): seq<Entry> {
    if evs == [] then []
    else ReceivedIn(evs[..|evs| - 1]) + if evs[|evs| - 1].Received? then [evs[|evs| - 1].e] else []
  }

  ghost predicate Sound(t: Writer, maxBatch: nat) {
    && (t.filling ==> t.batch != [] && |t.batch| < maxBatch && !t.drained)
    && (!t.filling ==> t.batch == [])
    && (t.done ==> !t.filling)
    && (forall i :: 0 <= i < |t.handed| ==> 0 < |t.handed[i]| <= Cap(maxBatch))
  }

  /** The most a batch can hold: an entry is always taken before the bound is looked at. */
  function Cap(maxBatch: nat): nat {
    if maxBatch == 0 then 1 else maxBatch
  }

  lemma SoundStep(t: Writer, ev: Event, maxBatch: nat)
    requires Sound(t, maxBatch) && Enabled(t, ev)
    ensures Sound(Step(t, ev, maxBatch), maxBatch)
    ensures t.handed <= Step(t, ev, maxBatch).handed
  {
  }

  /** Everything the writer has taken in, handed over or not. */
  function Taken(t: Writer): seq<Entry> {
    Concat(t.handed) + t.batch
  }

  lemma FlushConserves(t: Writer)
    ensures Taken(Flush(t)) == Taken(t)
  {
    assert Flush(t).handed[..|t.handed|] == t.handed;
  }

  lemma CollectConserves(t: Writer, maxBatch: nat)
    ensures Taken(Collect(t, maxBatch)) == Taken(t)
  {
    FlushConserves(t);
  }

  lemma OneMoreTaken(t: Writer, e: Entry)
    ensures Taken(t.(batch := t.batch + [e])) == Taken(t) + [e]
  {
  }

  /** A step adds the entry it receives and moves the others at most from batch to batches. */
  lemma StepConserves(t: Writer, ev: Event, maxBatch: nat)
    ensures Taken(Step(t, ev, maxBatch)) == if ev.Received? then Taken(t) + [ev.e] else Taken(t)
  {
    match ev
    case Received(e) =>
      OneMoreTaken(t, e);
      CollectConserves(t.(batch := t.batch + [e]), maxBatch);
    case Closed => FlushConserves(t);
    case Expired => FlushConserves(t);
    case Drain(on) => CollectConserves(t.(drained := on), maxBatch);
    case DrainLost =>
  }

  lemma {:induction false} RunSnoc(t: Writer, evs: seq<Event>, ev: Event, maxBatch: nat)
    ensures Run(t, evs + [ev], maxBatch) == Step(Run(t, evs, maxBatch), ev, maxBatch)
    ensures ValidRun(t, evs + [ev], maxBatch) <==> ValidRun(t, evs, maxBatch) && Enabled(Run(t, evs, maxBatch), ev)
    decreases |evs|
  {
    if evs == [] {
      assert evs + [ev] == [ev] && [ev][1..] == [];
    } else {
      assert (evs + [ev])[1..] == evs[1..] + [ev];
      RunSnoc(Step(t, evs[0], maxBatch), evs[1..], ev, maxBatch);
    }
  }

  /**
   * Conservation: handed-over batches plus the pending one are the received
   * entries in order; batches are never empty nor over the bound; nothing is
   * pending at the end.
   */
  lemma {:induction false} NothingLostOrReordered(drained: bool, evs: seq<Event>, maxBatch: nat)
    requires ValidRun(Start(drained), evs, maxBatch)
    ensures
      var t := Run(Start(drained), evs, maxBatch);
      && Taken(t) == ReceivedIn(evs)
      && Sound(t, maxBatch)
      && (t.done ==> Concat(t.handed) == ReceivedIn(evs))
    decreases |evs|
  {
    if evs != [] {
      var n := |evs| - 1;
      assert evs == evs[..n] + [evs[n]];
      RunSnoc(Start(drained), evs[..n], evs[n], maxBatch);
      NothingLostOrReordered(drained, evs[..n], maxBatch);
      SoundStep(Run(Start(drained), evs[..n], maxBatch), evs[n], maxBatch);
      StepConserves(Run(Start(drained), evs[..n], maxBatch), evs[n], maxBatch);
    }
  }

  /** Once draining is observed it stays, and every later batch is a single entry. */
  lemma {:induction false} DrainedBatchesAreSingle(t: Writer, evs: seq<Event>, maxBatch: nat)
    requires Sound(t, maxBatch) && t.drained && ValidRun(t, evs, maxBatch)
    ensures
      var t' := Run(t, evs, maxBatch);
      && t'.drained && Sound(t', maxBatch) && t.handed <= t'.handed
      && forall i :: |t.handed| <= i < |t'.handed| ==> |t'.handed[i]| == 1
    decreases |evs|
  {
    if evs != [] {
      SoundStep(t, evs[0], maxBatch);
      DrainedBatchesAreSingle(Step(t, evs[0], maxBatch), evs[1..], maxBatch);
    }
  }

  // ----- when a batch is handed over -----

  /** The drain flag as last observed. */
  function DrainedAfter(start: bool, evs: seq<Event>): bool {
    if evs == [] then start
    else
      match evs[|evs| - 1]
      case Drain(on) => on
      case _ => DrainedAfter(start, evs[..|evs| - 1])
  }

  /** The flag and the end of the writer are read off the events. */
  lemma {:induction false} StateFromEvents(start: bool, evs: seq<Event>, maxBatch: nat)
    requires ValidRun(Start(start), evs, maxBatch)
    ensures var t := Run(Start(start), evs, maxBatch);
      && t.drained == DrainedAfter(start, evs)
      && (t.done <==> Closed in evs) && (t.watching <==> DrainLost !in evs)
    decreases |evs|
  {
    if evs != [] {
      var front, last := evs[..|evs| - 1], evs[|evs| - 1];
      assert evs == front + [last];
      RunSnoc(Start(start), front, last, maxBatch);
      StateFromEvents(start, front, maxBatch);
    }
  }

  /** The events that hand the pending entries over, given how many are pending. */
  predicate HandsOver(ev: Event, drained: bool, pending: int, maxBatch: nat) {
    match ev
    case Received(_) => drained || pending + 1 >= maxBatch
    case Closed => pending > 0
    case Expired => true
    case Drain(on) => on
    case DrainLost => false
  }

  /**
   * A batch is handed over, with everything received so far, exactly at the end
   * of a window, at an observed drain, at a receive that fills it or comes while
   * draining, and at the close with entries pending; at no other event does the
   * list of batches change.
   */
  lemma HandoverExactly(start: bool, evs: seq<Event>, ev: Event, maxBatch: nat)
    requires ValidRun(Start(start), evs + [ev], maxBatch)
    ensures
      var before, after := Run(Start(start), evs, maxBatch).handed, Run(Start(start), evs + [ev], maxBatch).handed;
      var pending := |ReceivedIn(evs)| - |Concat(before)|;
      if HandsOver(ev, DrainedAfter(start, evs), pending, maxBatch)
      then before < after && |after| == |before| + 1 && Concat(after) == ReceivedIn(evs + [ev])
      else after == before
  {
    RunSnoc(Start(start), evs, ev, maxBatch);
    StateFromEvents(start, evs, maxBatch);
    NothingLostOrReordered(start, evs, maxBatch);
    NothingLostOrReordered(start, evs + [ev], maxBatch);
    var t := Run(Start(start), evs, maxBatch);
    assert |ReceivedIn(evs)| == |Concat(t.handed)| + |t.batch|;
    SoundStep(t, ev, maxBatch);
  }

  /**
   * What can happen next: until the close, an entry or the close at any time; the
   * end of the window only with entries pending; news of a drain only then, and
   * only while the drain signal is not lost.
   */
  lemma NextEventExactly(start: bool, evs: seq<Event>, ev: Event, maxBatch: nat)
    requires ValidRun(Start(start), evs, maxBatch)
    ensures
      var pending := |ReceivedIn(evs)| - |Concat(Run(Start(start), evs, maxBatch).handed)|;
      ValidRun(Start(start), evs + [ev], maxBatch) <==>
      && Closed !in evs
      && (ev.Expired? || ev.Drain? || ev.DrainLost? ==> pending > 0)
      && (ev.Drain? || ev.DrainLost? ==> DrainLost !in evs)
  {
    StateFromEvents(start, evs, maxBatch);
    NothingLostOrReordered(start, evs, maxBatch);
    var t := Run(Start(start), evs, maxBatch);
    assert |ReceivedIn(evs)| == |Concat(t.handed)| + |t.batch|;
    ValidSnoc(Start(start), evs, ev, maxBatch);
  }

  lemma {:induction false} ValidSnoc(t: Writer, evs: seq<Event>, ev: Event, maxBatch: nat)
    requires ValidRun(t, evs, maxBatch)
    ensures ValidRun(t, evs + [ev], maxBatch) <==> Enabled(Run(t, evs, maxBatch), ev)
    decreases |evs|
  {
    if evs == [] {
      assert [] + [ev] == [ev] && [ev][1..] == [];
    } else {
      assert (evs + [ev])[1..] == evs[1..] + [ev];
      ValidSnoc(Step(t, evs[0], maxBatch), evs[1..], ev, maxBatch);
    }
  }
}
