// Whole runs of a cluster: any number of nodes pulling from one another in any
// order, interleaved with local writes and deletes.  Each node's state of a
// free key is the newest event in its causal past, whatever path it took.
module Gossip {
  import opened Wrappers
  import opened Resolve
  import opened ControlPlane
  import opened ControlMerge
  import opened MergeLaws

  /** Node `i` pulls from `j`, writes a row, or deletes one and records the tombstone. */
  datatype Step = Merge(i: nat, j: nat) | Put(i: nat, row: Row) | Delete(i: nat, k: EntityKey, at: Time)

  ghost function LocalPut(n: Node, row: Row): Node {
    Node(n.alive[KeyOf(row) := row], n.dead - {KeyOf(row)})
  }

  ghost function LocalDelete(c: Cascade, n: Node, k: EntityKey, at: Time): Node {
    Node(Exec(c, n, Remove(k)).alive, n.dead[k := at])
  }

  ghost function Effect(c: Cascade, nodes: seq<Node>, s: Step): seq<Node>
    requires Enabled(nodes, s)
  {
    match s
    case Merge(i, j) => nodes[i := Merged(c, nodes[i], nodes[j])]
    case Put(i, row) => nodes[i := LocalPut(nodes[i], row)]
    case Delete(i, k, at) => nodes[i := LocalDelete(c, nodes[i], k, at)]
  }

  /** A local write is stamped no earlier than anything its node knows about the key. */
  ghost predicate Enabled(nodes: seq<Node>, s: Step) {
    && s.i < |nodes|
    && match s
       case Merge(i, j) => j < |nodes|
       case Put(i, row) =>
         !NodeLocal(KeyOf(row)) && Level(MarkAt(nodes[i], KeyOf(row))) <= WriteLevel(Some(At(row)))
       case Delete(i, k, at) =>
         !NodeLocal(k) && k.family != Part && Level(MarkAt(nodes[i], k)) <= DeleteLevel(Some(at))
  }

  ghost predicate ValidRun(c: Cascade, init: seq<Node>, steps: seq<Step>)
    decreases |steps|, 0
  {
    if steps == [] then forall i :: 0 <= i < |init| ==> ValidNode(init[i])
    else
      var n := |steps| - 1;
      ValidRun(c, init, steps[..n]) && Enabled(State(c, init, steps[..n]), steps[n])
  }

  /** The nodes after a run. */
  ghost function State(c: Cascade, init: seq<Node>, steps: seq<Step>): seq<Node>
    requires ValidRun(c, init, steps)
    decreases |steps|, 1
  {
    if steps == [] then init
    else
      var n := |steps| - 1;
      Effect(c, State(c, init, steps[..n]), steps[n])
  }

  lemma {:induction false} StateIsValid(c: Cascade, init: seq<Node>, steps: seq<Step>)
    requires ValidRun(c, init, steps)
    ensures |State(c, init, steps)| == |init|
    ensures forall i :: 0 <= i < |init| ==> ValidNode(State(c, init, steps)[i])
    decreases |steps|
  {
    if steps != [] {
      var n := |steps| - 1;
      StateIsValid(c, init, steps[..n]);
      EffectIsValid(c, State(c, init, steps[..n]), steps[n]);
    }
  }

  lemma EffectIsValid(c: Cascade, nodes: seq<Node>, s: Step)
    requires Enabled(nodes, s) && forall i :: 0 <= i < |nodes| ==> ValidNode(nodes[i])
    ensures |Effect(c, nodes, s)| == |nodes|
    ensures forall i :: 0 <= i < |nodes| ==> ValidNode(Effect(c, nodes, s)[i])
  {
    if s.Merge? {
      MergedIsValid(c, nodes[s.i], nodes[s.j]);
    } else if s.Put? {
      assert ValidNode(LocalPut(nodes[s.i], s.row));
    } else {
      assert ValidNode(LocalDelete(c, nodes[s.i], s.k, s.at));
    }
  }

  // ----- causal pasts -----

  /**
   * What a node has heard of: `s < n` stands for node `s`'s initial state,
   * `n + t` for the local write of step `t`.
   */
  function Past(n: nat, steps: seq<Step>, i: nat): set<nat>
    decreases |steps|
  {
    if steps == [] then {i}
    else
      var t := |steps| - 1;
      var before := Past(n, steps[..t], i);
      if steps[t].i != i then before
      else if steps[t].Merge? then before + Past(n, steps[..t], steps[t].j)
      else before + {n + t}
  }

  /** What source `s` says about key `k`. */
  function Said(init: seq<Node>, steps: seq<Step>, s: nat, k: EntityKey): Mark {
    if s < |init| then MarkAt(init[s], k)
    else if s < |init| + |steps| then
      match steps[s - |init|]
      case Put(_, row) => if KeyOf(row) == k then Mark(Some(At(row)), None) else Mark(None, None)
      case Delete(_, k', at) => if k' == k then Mark(None, Some(at)) else Mark(None, None)
      case Merge(_, _) => Mark(None, None)
    else Mark(None, None)
  }

  /** The row source `s` holds under key `k`. */
  function Held(init: seq<Node>, steps: seq<Step>, s: nat, k: EntityKey): Option<Row> {
    if s < |init| then RowAt(init[s], k)
    else if s < |init| + |steps| && steps[s - |init|].Put? && KeyOf(steps[s - |init|].row) == k
      then Some(steps[s - |init|].row)
    else None
  }

  lemma {:induction false} PastInRange(n: nat, steps: seq<Step>, i: nat)
    requires i < n && forall t :: 0 <= t < |steps| ==> InRange(steps[t], n)
    ensures i in Past(n, steps, i)
    ensures forall s :: s in Past(n, steps, i) ==> s < n + |steps|
    decreases |steps|
  {
    if steps != [] {
      var t := |steps| - 1;
      PastInRange(n, steps[..t], i);
      if steps[t].Merge? {
        PastInRange(n, steps[..t], steps[t].j);
      }
    }
  }

  /** The nodes a step names exist. */
  predicate InRange(s: Step, n: nat) {
    s.i < n && (s.Merge? ==> s.j < n)
  }

  lemma LastIndices(c: Cascade, init: seq<Node>, steps: seq<Step>)
    requires ValidRun(c, init, steps) && steps != []
    ensures InRange(steps[|steps| - 1], |init|) && ValidRun(c, init, steps[..|steps| - 1])
  {
    StateIsValid(c, init, steps[..|steps| - 1]);
  }

  lemma {:induction false} RunIndices(c: Cascade, init: seq<Node>, steps: seq<Step>)
    requires ValidRun(c, init, steps)
    ensures forall t :: 0 <= t < |steps| ==> InRange(steps[t], |init|)
    decreases |steps|
  {
    if steps != [] {
      var front, last := steps[..|steps| - 1], steps[|steps| - 1];
      assert steps == front + [last];
      LastIndices(c, init, steps);
      RunIndices(c, init, front);
    }
  }

  /** The past of a node only grows. */
  lemma {:induction false} PastGrows(n: nat, steps: seq<Step>, m: nat, i: nat)
    requires m <= |steps|
    ensures Past(n, steps[..m], i) <= Past(n, steps, i)
    decreases |steps|
  {
    if m == |steps| {
      assert steps[..m] == steps;
    } else {
      var t := |steps| - 1;
      assert steps[..t][..m] == steps[..m];
      PastGrows(n, steps[..t], m, i);
    }
  }

  // ----- one step at one key -----

  /** `m` is the newest of what the sources in `past` say about `k`. */
  ghost predicate Newest(init: seq<Node>, steps: seq<Step>, past: set<nat>, k: EntityKey, m: Mark) {
    && (forall s :: s in past ==> Level(Said(init, steps, s, k)) <= Level(m))
    && (exists s :: s in past && Level(Said(init, steps, s, k)) == Level(m))
  }

  lemma SaidEarlier(init: seq<Node>, steps: seq<Step>, s: nat, k: EntityKey)
    requires steps != [] && s < |init| + |steps| - 1
    ensures Said(init, steps[..|steps| - 1], s, k) == Said(init, steps, s, k)
    ensures Held(init, steps[..|steps| - 1], s, k) == Held(init, steps, s, k)
  {
  }

  /** A local delete takes the row under `k` along, and with it the newest thing the node knows of `k`. */
  ghost predicate Forgets(c: Cascade, n: Node, k': EntityKey, k: EntityKey) {
    && k != k' && k in n.alive && Drags(c, n.alive[k], k')
    && !Before(MarkAt(n, k).alive, MarkAt(n, k).dead)
  }

  /** The step takes nothing known about `k` away with a parent. */
  ghost predicate Spares(c: Cascade, nodes: seq<Node>, s: Step, k: EntityKey)
    requires Enabled(nodes, s)
  {
    match s
    case Merge(i, j) => Undragged(c, nodes[i], nodes[j], k)
    case Put(_, _) => true
    case Delete(i, k', _) => !Forgets(c, nodes[i], k', k)
  }

  /** No step of the run takes anything known about `k` away with a parent. */
  ghost predicate Spared(c: Cascade, init: seq<Node>, steps: seq<Step>, k: EntityKey)
    requires ValidRun(c, init, steps)
    decreases |steps|
  {
    steps == [] ||
      var n := |steps| - 1;
      Spared(c, init, steps[..n], k) && Spares(c, State(c, init, steps[..n]), steps[n], k)
  }

  /** Every run spares the families no cascade touches. */
  lemma {:induction false} FreeIsSpared(c: Cascade, init: seq<Node>, steps: seq<Step>, k: EntityKey)
    requires ValidRun(c, init, steps) && Free(c, k.family)
    ensures Spared(c, init, steps, k)
    decreases |steps|
  {
    if steps != [] {
      var n := |steps| - 1;
      FreeIsSpared(c, init, steps[..n], k);
      StateIsValid(c, init, steps[..n]);
      FreeStepSpares(c, State(c, init, steps[..n]), steps[n], k);
    }
  }

  lemma FreeStepSpares(c: Cascade, nodes: seq<Node>, s: Step, k: EntityKey)
    requires Enabled(nodes, s) && Free(c, k.family) && forall i :: 0 <= i < |nodes| ==> ValidNode(nodes[i])
    ensures Spares(c, nodes, s, k)
  {
    match s
    case Merge(i, j) => FreeUndragged(c, nodes[i], nodes[j], k);
    case Put(_, _) =>
    case Delete(i, k', _) =>
      if k in nodes[i].alive {
        FreeRow(c, nodes[i].alive[k], k');
      }
  }

  function LocalKey(s: Step): EntityKey
    requires !s.Merge?
  {
    if s.Put? then KeyOf(s.row) else s.k
  }

  ghost function LocalEffect(c: Cascade, n: Node, s: Step): Node
    requires !s.Merge?
  {
    if s.Put? then LocalPut(n, s.row) else LocalDelete(c, n, s.k, s.at)
  }

  /** A local write sets its own key; of any other it can only take the row away. */
  lemma LocalWriteAt(c: Cascade, n: Node, s: Step, k: EntityKey)
    requires !s.Merge?
    ensures
      var n' := LocalEffect(c, n, s);
      && (k != LocalKey(s) ==> DeadAt(n', k) == DeadAt(n, k) && RowAt(n', k) in {None, RowAt(n, k)})
      && (k == LocalKey(s) ==> MarkAt(n', k) == if s.Put? then Mark(Some(At(s.row)), None) else Mark(None, Some(s.at)))
      && (k == LocalKey(s) ==> RowAt(n', k) == if s.Put? then Some(s.row) else None)
  {
  }

  /** A local write elsewhere lowers what a node knows of `k` exactly when it forgets its row. */
  lemma LocalWriteLevel(c: Cascade, n: Node, s: Step, k: EntityKey)
    requires !s.Merge? && k != LocalKey(s)
    ensures var n' := LocalEffect(c, n, s);
      && Level(MarkAt(n', k)) <= Level(MarkAt(n, k))
      && (Level(MarkAt(n', k)) == Level(MarkAt(n, k)) <==> !(s.Delete? && Forgets(c, n, s.k, k)))
  {
    LocalWriteAt(c, n, s, k);
  }

  /** Joining two nodes' newest events gives the newest event of both pasts. */
  lemma NewestJoin(init: seq<Node>, steps: seq<Step>, a: set<nat>, b: set<nat>, k: EntityKey, l: Mark, r: Mark)
    requires Newest(init, steps, a, k, l) && Newest(init, steps, b, k, r)
    ensures Newest(init, steps, a + b, k, Outcome(l, r))
  {
    OutcomeIsJoin(l, r);
    var s :| s in a && Level(Said(init, steps, s, k)) == Level(l);
    var t :| t in b && Level(Said(init, steps, t, k)) == Level(r);
    assert s in a + b && t in a + b;
  }

  lemma NewestLater(init: seq<Node>, steps: seq<Step>, past: set<nat>, k: EntityKey, m: Mark)
    requires steps != [] && forall s :: s in past ==> s < |init| + |steps| - 1
    requires Newest(init, steps[..|steps| - 1], past, k, m)
    ensures Newest(init, steps, past, k, m)
  {
    forall s | s in past ensures Said(init, steps[..|steps| - 1], s, k) == Said(init, steps, s, k) {
      SaidEarlier(init, steps, s, k);
    }
  }

  lemma NewestWrite(init: seq<Node>, steps: seq<Step>, past: set<nat>, k: EntityKey, m: Mark, m': Mark)
    requires steps != [] && Newest(init, steps, past, k, m)
    requires var said := Said(init, steps, |init| + |steps| - 1, k);
      (said == Mark(None, None) && Level(m') == Level(m)) || (said == m' && Level(m) <= Level(m'))
    ensures Newest(init, steps, past + {|init| + |steps| - 1}, k, m')
  {
    var w := |init| + |steps| - 1;
    var s :| s in past && Level(Said(init, steps, s, k)) == Level(m);
    assert s in past + {w} && w in past + {w};
  }

  // ----- runs -----

  /** Every node holds the newest event of its past, for every unfiltered key the run spares. */
  lemma {:induction false} HoldsNewest(c: Cascade, init: seq<Node>, steps: seq<Step>, i: nat, k: EntityKey)
    requires ValidRun(c, init, steps) && i < |init| && Unfiltered(k.family) && Spared(c, init, steps, k)
    ensures |State(c, init, steps)| == |init|
    ensures Newest(init, steps, Past(|init|, steps, i), k, MarkAt(State(c, init, steps)[i], k))
    decreases |steps|
  {
    StateIsValid(c, init, steps);
    if steps == [] {
      assert i in Past(|init|, steps, i);
    } else {
      var t := |steps| - 1;
      var prev := State(c, init, steps[..t]);
      StateIsValid(c, init, steps[..t]);
      RunIndices(c, init, steps[..t]);
      HoldsNewest(c, init, steps[..t], i, k);
      PastInRange(|init|, steps[..t], i);
      NewestLater(init, steps, Past(|init|, steps[..t], i), k, MarkAt(prev[i], k));
      if steps[t].i == i {
        if steps[t].Merge? {
          var j := steps[t].j;
          HoldsNewest(c, init, steps[..t], j, k);
          PastInRange(|init|, steps[..t], j);
          NewestLater(init, steps, Past(|init|, steps[..t], j), k, MarkAt(prev[j], k));
          NewestJoin(init, steps, Past(|init|, steps[..t], i), Past(|init|, steps[..t], j), k, MarkAt(prev[i], k), MarkAt(prev[j], k));
          MergedMark(c, prev[i], prev[j], k);
        } else {
          LocalWriteAt(c, prev[i], steps[t], k);
          if k != LocalKey(steps[t]) {
            LocalWriteLevel(c, prev[i], steps[t], k);
          }
          NewestWrite(init, steps, Past(|init|, steps[..t], i), k, MarkAt(prev[i], k), MarkAt(State(c, init, steps)[i], k));
        }
      }
    }
  }

  /** Whatever the family and the cascades, a node's live row is one some source of its past holds. */
  lemma {:induction false} HoldsKnownRow(c: Cascade, init: seq<Node>, steps: seq<Step>, i: nat, k: EntityKey) returns (s: nat)
    requires ValidRun(c, init, steps) && i < |init|
    requires |State(c, init, steps)| == |init| && k in State(c, init, steps)[i].alive
    ensures Held(init, steps, s, k) == Some(State(c, init, steps)[i].alive[k])
    ensures s < |init| + |steps| && s in Past(|init|, steps, i)
    decreases |steps|
  {
    if steps == [] {
      s := i;
    } else {
      var t := |steps| - 1;
      if steps[t].Put? && steps[t].i == i && KeyOf(steps[t].row) == k {
        PutIsHeld(c, init, steps, i, k);
        PutIsPast(|init|, steps, i);
        s := |init| + t;
      } else {
        var from := RowComesFrom(c, init, steps, i, k);
        s := HoldsKnownRow(c, init, steps[..t], from, k);
        SaidEarlier(init, steps, s, k);
      }
    }
  }

  lemma PutIsPast(n: nat, steps: seq<Step>, i: nat)
    requires steps != [] && !steps[|steps| - 1].Merge? && steps[|steps| - 1].i == i
    ensures n + |steps| - 1 in Past(n, steps, i)
  {
  }

  lemma PutIsHeld(c: Cascade, init: seq<Node>, steps: seq<Step>, i: nat, k: EntityKey)
    requires steps != [] && ValidRun(c, init, steps) && i < |init| && |State(c, init, steps)| == |init|
    requires steps[|steps| - 1].Put? && steps[|steps| - 1].i == i && KeyOf(steps[|steps| - 1].row) == k
    ensures Held(init, steps, |init| + |steps| - 1, k) == RowAt(State(c, init, steps)[i], k)
  {
    var t := |steps| - 1;
    StateIsValid(c, init, steps[..t]);
    LocalWriteAt(c, State(c, init, steps[..t])[i], steps[t], k);
  }

  /** Unless it was written in the last step, a row was held just before it by a node whose past was absorbed. */
  lemma RowComesFrom(c: Cascade, init: seq<Node>, steps: seq<Step>, i: nat, k: EntityKey) returns (from: nat)
    requires ValidRun(c, init, steps) && i < |init| && steps != []
    requires |State(c, init, steps)| == |init| && k in State(c, init, steps)[i].alive
    requires var step := steps[|steps| - 1]; !(step.Put? && step.i == i && KeyOf(step.row) == k)
    ensures var front := steps[..|steps| - 1];
      && ValidRun(c, init, front) && from < |init| && |State(c, init, front)| == |init|
      && RowAt(State(c, init, front)[from], k) == RowAt(State(c, init, steps)[i], k)
      && Past(|init|, front, from) <= Past(|init|, steps, i)
  {
    var t := |steps| - 1;
    var prev := State(c, init, steps[..t]);
    StateIsValid(c, init, steps[..t]);
    from := i;
    if steps[t].i == i {
      if steps[t].Merge? {
        var j := steps[t].j;
        MergedIsCanonical(c, prev[i], prev[j], k);
        if RowAt(Merged(c, prev[i], prev[j]), k) != RowAt(prev[i], k) {
          from := j;
        }
      } else {
        LocalWriteAt(c, prev[i], steps[t], k);
      }
    }
  }

  /** Source `s` reached node `i` through a merge or a write of `k`, not as its own start. */
  predicate Absorbed(init: seq<Node>, steps: seq<Step>, i: nat, s: nat, k: EntityKey) {
    s != i && s in Past(|init|, steps, i) && (s < |init| || Said(init, steps, s, k) != Mark(None, None))
  }

  /** A node that absorbed anything about `k` shows at most one of row and tombstone. */
  lemma {:induction false} AbsorbedIsCanonical(c: Cascade, init: seq<Node>, steps: seq<Step>, i: nat, s: nat, k: EntityKey)
    requires ValidRun(c, init, steps) && i < |init|
    requires Absorbed(init, steps, i, s, k)
    ensures |State(c, init, steps)| == |init| && Canonical(MarkAt(State(c, init, steps)[i], k))
    decreases |steps|
  {
    StateIsValid(c, init, steps);
    if steps != [] {
      var t := |steps| - 1;
      var prev := State(c, init, steps[..t]);
      StateIsValid(c, init, steps[..t]);
      RunIndices(c, init, steps[..t]);
      PastInRange(|init|, steps[..t], i);
      if steps[t].i == i && steps[t].Merge? {
        MergedIsCanonical(c, prev[i], prev[steps[t].j], k);
      } else {
        if steps[t].i == i {
          LocalWriteAt(c, prev[i], steps[t], k);
        }
        if s != |init| + t {
          SaidEarlier(init, steps, s, k);
          AbsorbedIsCanonical(c, init, steps[..t], i, s, k);
        }
      }
    }
  }

  /**
   * Convergence: two nodes with the same past hold the same live and deleted
   * instants for every unfiltered key the run spares, and the same row when
   * equal instants of the key carry equal rows in their past.
   */
  lemma Convergence(c: Cascade, init: seq<Node>, steps: seq<Step>, i: nat, j: nat, k: EntityKey)
    requires ValidRun(c, init, steps) && i < |init| && j < |init| && Unfiltered(k.family) && Spared(c, init, steps, k)
    requires Past(|init|, steps, i) == Past(|init|, steps, j)
    ensures |State(c, init, steps)| == |init|
    ensures MarkAt(State(c, init, steps)[i], k) == MarkAt(State(c, init, steps)[j], k)
    ensures (forall s, t ::
               s in Past(|init|, steps, i) && t in Past(|init|, steps, i)
               && Held(init, steps, s, k).Some? && Held(init, steps, t, k).Some?
               && At(Held(init, steps, s, k).value) == At(Held(init, steps, t, k).value) ==>
               Held(init, steps, s, k) == Held(init, steps, t, k)) ==>
      RowAt(State(c, init, steps)[i], k) == RowAt(State(c, init, steps)[j], k)
  {
    var nodes := State(c, init, steps);
    HoldsNewest(c, init, steps, i, k);
    HoldsNewest(c, init, steps, j, k);
    if i != j {
      RunIndices(c, init, steps);
      PastInRange(|init|, steps, i);
      PastInRange(|init|, steps, j);
      AbsorbedIsCanonical(c, init, steps, i, j, k);
      AbsorbedIsCanonical(c, init, steps, j, i, k);
      LevelDeterminesMark(MarkAt(nodes[i], k), MarkAt(nodes[j], k));
      if k in nodes[i].alive {
        var s := HoldsKnownRow(c, init, steps, i, k);
        var t := HoldsKnownRow(c, init, steps, j, k);
        assert At(Held(init, steps, s, k).value) == At(Held(init, steps, t, k).value);
      }
    }
  }

  /** A node shows at most one of row and tombstone, or what it started with. */
  lemma {:induction false} CanonicalOrStart(c: Cascade, init: seq<Node>, steps: seq<Step>, i: nat, k: EntityKey)
    requires ValidRun(c, init, steps) && i < |init|
    ensures |State(c, init, steps)| == |init|
    ensures var m := MarkAt(State(c, init, steps)[i], k); Canonical(m) || m == MarkAt(init[i], k)
    decreases |steps|
  {
    StateIsValid(c, init, steps);
    if steps != [] {
      var t := |steps| - 1;
      StateIsValid(c, init, steps[..t]);
      CanonicalOrStart(c, init, steps[..t], i, k);
      var prev := State(c, init, steps[..t]);
      if steps[t].i == i {
        if steps[t].Merge? {
          MergedIsCanonical(c, prev[i], prev[steps[t].j], k);
        } else {
          LocalWriteAt(c, prev[i], steps[t], k);
        }
      }
    }
  }

  /** The row a node holds under `k`, if any, is no older than `d`. */
  predicate NotBefore(n: Node, k: EntityKey, d: Time) {
    k in n.alive ==> At(n.alive[k]) >= d
  }

  /** Node `i` after a run. */
  ghost function NodeAfter(c: Cascade, init: seq<Node>, steps: seq<Step>, i: nat): Node
    requires ValidRun(c, init, steps) && i < |init|
  {
    StateIsValid(c, init, steps);
    State(c, init, steps)[i]
  }

  /**
   * No resurrection: once a node knows of a deletion at time `d` of an
   * unfiltered key the run spares, from its own start or from any other source,
   * it never again shows the key live with an instant below `d`, even after its
   * tombstone is cleared.  Only a node that starts with the tombstone beside an
   * older row is set apart: it shows that row from the beginning.
   */
  lemma NoResurrection(c: Cascade, init: seq<Node>, steps: seq<Step>, m: nat, i: nat, s: nat, k: EntityKey, d: Time)
    requires ValidRun(c, init, steps) && m <= |steps| && i < |init| && Unfiltered(k.family) && Spared(c, init, steps, k)
    requires s in Past(|init|, steps[..m], i) && Said(init, steps[..m], s, k).dead == Some(d)
    requires s == i ==> NotBefore(init[i], k, d)
    ensures NotBefore(NodeAfter(c, init, steps, i), k, d)
  {
    PastGrows(|init|, steps, m, i);
    assert Said(init, steps[..m], s, k) == Said(init, steps, s, k);
    HoldsNewest(c, init, steps, i, k);
    CanonicalOrStart(c, init, steps, i, k);
    if s != i {
      AbsorbedIsCanonical(c, init, steps, i, s, k);
    }
  }

  /** For a node's own tombstone, that is exactly when the law holds. */
  lemma OwnTombstoneExactly(c: Cascade, init: seq<Node>, i: nat, k: EntityKey, d: Time)
    requires ValidRun(c, init, []) && i < |init| && Unfiltered(k.family) && DeadAt(init[i], k) == Some(d)
    ensures NotBefore(init[i], k, d) <==>
      forall steps :: ValidRun(c, init, steps) && Spared(c, init, steps, k) ==> NotBefore(NodeAfter(c, init, steps, i), k, d)
  {
    if NotBefore(init[i], k, d) {
      forall steps | ValidRun(c, init, steps) && Spared(c, init, steps, k)
        ensures NotBefore(NodeAfter(c, init, steps, i), k, d)
      {
        assert steps[..0] == [];
        NoResurrection(c, init, steps, 0, i, i, k, d);
      }
    } else {
      assert NodeAfter(c, init, [], i) == init[i];
    }
  }

  // ----- what a cascade costs -----

  /** At every moment of the run node `i` holds the newest event of its past. */
  ghost predicate AlwaysNewest(c: Cascade, init: seq<Node>, steps: seq<Step>, k: EntityKey)
    requires ValidRun(c, init, steps)
    decreases |steps|
  {
    && (forall i :: 0 <= i < |init| ==>
          Newest(init, steps, Past(|init|, steps, i), k, MarkAt(NodeAfter(c, init, steps, i), k)))
    && (steps != [] ==> AlwaysNewest(c, init, steps[..|steps| - 1], k))
  }

  /**
   * For an unfiltered key, every node holds the newest event of its past at
   * every moment of a run exactly when no step takes the key's row away with a
   * parent: of these families only credentials have one, under the stores'
   * cascades.
   */
  lemma {:induction false} AlwaysNewestExactly(c: Cascade, init: seq<Node>, steps: seq<Step>, k: EntityKey)
    requires ValidRun(c, init, steps) && Unfiltered(k.family)
    ensures AlwaysNewest(c, init, steps, k) <==> Spared(c, init, steps, k)
    decreases |steps|
  {
    if steps != [] {
      AlwaysNewestExactly(c, init, steps[..|steps| - 1], k);
    }
    if Spared(c, init, steps, k) {
      forall i | 0 <= i < |init| ensures
        Newest(init, steps, Past(|init|, steps, i), k, MarkAt(NodeAfter(c, init, steps, i), k))
      {
        HoldsNewest(c, init, steps, i, k);
      }
    } else if AlwaysNewest(c, init, steps, k) {
      UnsparedStepForgets(c, init, steps, k);
    }
  }

  /** A step that takes the row away leaves its node short of the newest event. */
  lemma UnsparedStepForgets(c: Cascade, init: seq<Node>, steps: seq<Step>, k: EntityKey)
    requires ValidRun(c, init, steps) && Unfiltered(k.family) && steps != []
    requires Spared(c, init, steps[..|steps| - 1], k) && !Spares(c, State(c, init, steps[..|steps| - 1]), steps[|steps| - 1], k)
    ensures var i := steps[|steps| - 1].i;
      i < |init| && !Newest(init, steps, Past(|init|, steps, i), k, MarkAt(NodeAfter(c, init, steps, i), k))
  {
    var t := |steps| - 1;
    var i, prev := steps[t].i, State(c, init, steps[..t]);
    StateIsValid(c, init, steps[..t]);
    KnownBefore(c, init, steps, i, k);
    if steps[t].Merge? {
      KnownBefore(c, init, steps, steps[t].j, k);
      DraggedIsForgotten(c, prev[i], prev[steps[t].j], k);
    } else {
      LocalWriteLevel(c, prev[i], steps[t], k);
    }
  }

  /** What a node of the step knew is known to its past, as of then and now. */
  lemma KnownBefore(c: Cascade, init: seq<Node>, steps: seq<Step>, i: nat, k: EntityKey)
    requires ValidRun(c, init, steps) && Unfiltered(k.family) && steps != [] && i < |init|
    requires Spared(c, init, steps[..|steps| - 1], k)
    ensures exists s ::
      s in Past(|init|, steps[..|steps| - 1], i) &&
      Level(Said(init, steps, s, k)) == Level(MarkAt(NodeAfter(c, init, steps[..|steps| - 1], i), k))
  {
    var t := |steps| - 1;
    HoldsNewest(c, init, steps[..t], i, k);
    RunIndices(c, init, steps[..t]);
    PastInRange(|init|, steps[..t], i);
    var s :| s in Past(|init|, steps[..t], i)
      && Level(Said(init, steps[..t], s, k)) == Level(MarkAt(State(c, init, steps[..t])[i], k));
    SaidEarlier(init, steps, s, k);
  }

  /** A merge that drags the row of an unfiltered key leaves no mark, though one side had one. */
  lemma DraggedIsForgotten(c: Cascade, l: Node, r: Node, k: EntityKey)
    requires ValidNode(l) && ValidNode(r) && !Undragged(c, l, r, k)
    ensures MarkAt(Merged(c, l, r), k) == Mark(None, None)
    ensures Level(MarkAt(l, k)) > -1 || Level(MarkAt(r, k)) > -1
  {
    MergedAt(c, l, r, k);
  }

  /** One more step of a run. */
  lemma RunSnoc(c: Cascade, init: seq<Node>, steps: seq<Step>, s: Step)
    requires ValidRun(c, init, steps) && Enabled(State(c, init, steps), s)
    ensures ValidRun(c, init, steps + [s]) && State(c, init, steps + [s]) == Effect(c, State(c, init, steps), s)
  {
    assert (steps + [s])[..|steps|] == steps;
  }

  /** A node that knows nothing of a credential adopts it, user or no user. */
  lemma UnknownCredentialAdopted(l: Node, r: Node, cred: Row)
    requires ValidNode(l) && ValidNode(r) && cred.family == Credential && RowAt(r, KeyOf(cred)) == Some(cred)
    requires MarkAt(l, KeyOf(cred)) == Mark(None, None) && KeyOf(cred) !in r.dead && Owner(cred) !in l.alive
    ensures RowAt(Merged(AsStored, l, r), KeyOf(cred)) == Some(cred)
  {
    var k := KeyOf(cred);
    MergedAt(AsStored, l, r, k);
    UnfilteredCandidate(l, r, k);
    forall p | Drags(AsStored, cred, p) ensures !WantsDelete(l, r, p) {
      assert p == Owner(cred);
    }
  }

  /** A user deleted elsewhere takes its credential along. */
  lemma CredentialDragged(l: Node, r: Node, cred: Row)
    requires ValidNode(l) && ValidNode(r) && cred.family == Credential && RowAt(l, KeyOf(cred)) == Some(cred) == RowAt(r, KeyOf(cred))
    requires KeyOf(cred) !in l.dead && KeyOf(cred) !in r.dead && WantsDelete(l, r, Owner(cred))
    ensures MarkAt(Merged(AsStored, l, r), KeyOf(cred)) == Mark(None, None)
  {
    var k := KeyOf(cred);
    UnfilteredCandidate(l, r, k);
    assert Candidate(l, r, k) == Some(cred) && Drags(AsStored, cred, Owner(cred));
    DraggedIsForgotten(AsStored, l, r, k);
  }

  /** A deletion of the user drops the credential with everything known of it. */
  lemma DroppedWithUser(n: Node, cred: Row, at: Time)
    requires cred.family == Credential && RowAt(n, KeyOf(cred)) == Some(cred) && KeyOf(cred) !in n.dead
    ensures MarkAt(LocalDelete(AsStored, n, Owner(cred), at), KeyOf(cred)) == Mark(None, None)
    ensures Owner(cred) !in LocalDelete(AsStored, n, Owner(cred), at).alive
  {
    assert Hits(AsStored, cred, KeyOf(cred), Owner(cred));
  }

  /** Node 0 writes a row, deletes a key and pulls from node 1. */
  lemma PutDeletePull(c: Cascade, n0: Node, n1: Node, row: Row, k: EntityKey, at: Time)
    requires ValidNode(n0) && ValidNode(n1) && Enabled([n0, n1], Put(0, row)) && Enabled([LocalPut(n0, row), n1], Delete(0, k, at))
    ensures var steps := [Put(0, row), Delete(0, k, at), Merge(0, 1)];
      && ValidRun(c, [n0, n1], steps)
      && NodeAfter(c, [n0, n1], steps, 0) == Merged(c, LocalDelete(c, LocalPut(n0, row), k, at), n1)
      && ValidNode(LocalDelete(c, LocalPut(n0, row), k, at))
  {
    var init := [n0, n1];
    var s1, s2, s3 := [Put(0, row)], [Put(0, row), Delete(0, k, at)], [Put(0, row), Delete(0, k, at), Merge(0, 1)];
    assert s1 == [] + [Put(0, row)] && s2 == s1 + [Delete(0, k, at)] && s3 == s2 + [Merge(0, 1)];
    assert ValidRun(c, init, []) && State(c, init, []) == init;
    RunSnoc(c, init, [], Put(0, row));
    assert State(c, init, s1) == [LocalPut(n0, row), n1];
    RunSnoc(c, init, s1, Delete(0, k, at));
    RunSnoc(c, init, s2, Merge(0, 1));
    StateIsValid(c, init, s2);
  }

  /** Node 1 pulls from node 0, then node 0 from node 1. */
  lemma TwoPulls(c: Cascade, n0: Node, n1: Node)
    requires ValidNode(n0) && ValidNode(n1)
    ensures var steps, m := [Merge(1, 0), Merge(0, 1)], Merged(c, n1, n0);
      && ValidRun(c, [n0, n1], steps) && Past(2, steps, 0) == Past(2, steps, 1)
      && NodeAfter(c, [n0, n1], steps, 0) == Merged(c, n0, m) && NodeAfter(c, [n0, n1], steps, 1) == m
  {
    var init := [n0, n1];
    var s1, s2 := [Merge(1, 0)], [Merge(1, 0), Merge(0, 1)];
    assert s1 == [] + [Merge(1, 0)] && s2 == s1 + [Merge(0, 1)];
    assert ValidRun(c, init, []) && State(c, init, []) == init;
    RunSnoc(c, init, [], Merge(1, 0));
    assert State(c, init, s1) == [n0, Merged(c, n1, n0)];
    RunSnoc(c, init, s1, Merge(0, 1));
    SamePast(s2);
  }

  /**
   * A credential's own tombstone does not protect it: a newer row clears it, the
   * user's deletion drags that row away, and a peer's older row comes back.
   */
  lemma CredentialResurrected(user: Row, stale: Row, renewed: Row, d: Time, at: Time)
    returns (init: seq<Node>, steps: seq<Step>)
    requires user.family == User && stale.family == Credential && Owner(stale) == KeyOf(user) == Owner(renewed)
    requires KeyOf(renewed) == KeyOf(stale) && At(stale) < d <= At(renewed) && At(user) < at
    ensures ValidRun(AsStored, init, steps) && |init| == 2
    ensures MarkAt(init[0], KeyOf(stale)) == Mark(None, Some(d))
    ensures RowAt(NodeAfter(AsStored, init, steps, 0), KeyOf(stale)) == Some(stale)
  {
    var k, u := KeyOf(stale), KeyOf(user);
    var n0, n1 := Node(map[u := user], map[k := d]), Node(map[k := stale], map[]);
    init, steps := [n0, n1], [Put(0, renewed), Delete(0, u, at), Merge(0, 1)];
    PutDeletePull(AsStored, n0, n1, renewed, u, at);
    DroppedWithUser(LocalPut(n0, renewed), renewed, at);
    UnknownCredentialAdopted(LocalDelete(AsStored, LocalPut(n0, renewed), u, at), n1, stale);
  }

  /** A node where the user is deleted pulls the credential; the node it came from then pulls the deletion. */
  lemma PulledBothWays(n0: Node, n1: Node, cred: Row)
    requires ValidNode(n0) && ValidNode(n1) && cred.family == Credential && RowAt(n0, KeyOf(cred)) == Some(cred)
    requires MarkAt(n1, KeyOf(cred)) == Mark(None, None) && KeyOf(cred) !in n0.dead
    requires MarkAt(n1, Owner(cred)).alive == None && Resolution(n1, n0, Owner(cred)).alive == false && Owner(cred) in n0.alive
    ensures var m := Merged(AsStored, n1, n0);
      RowAt(m, KeyOf(cred)) == Some(cred) && RowAt(Merged(AsStored, n0, m), KeyOf(cred)) == None
  {
    var m, k, u := Merged(AsStored, n1, n0), KeyOf(cred), Owner(cred);
    UnknownCredentialAdopted(n1, n0, cred);
    MergedIsValid(AsStored, n1, n0);
    FreeMergedMark(AsStored, n1, n0, u);
    MergedIsCanonical(AsStored, n1, n0, k);
    CredentialDragged(n0, m, cred);
  }

  /** Two nodes with the same past, one with the credential of a deleted user and one without. */
  lemma CredentialDiverges(user: Row, cred: Row, d: Time) returns (init: seq<Node>, steps: seq<Step>)
    requires user.family == User && cred.family == Credential && Owner(cred) == KeyOf(user) && At(user) < d
    ensures ValidRun(AsStored, init, steps) && |init| == 2 && Past(2, steps, 0) == Past(2, steps, 1)
    ensures RowAt(NodeAfter(AsStored, init, steps, 0), KeyOf(cred)) == None
    ensures RowAt(NodeAfter(AsStored, init, steps, 1), KeyOf(cred)) == Some(cred)
  {
    var k, u := KeyOf(cred), KeyOf(user);
    var n0, n1 := Node(map[u := user, k := cred], map[]), Node(map[], map[u := d]);
    init, steps := [n0, n1], [Merge(1, 0), Merge(0, 1)];
    UserIsGone(user, cred, d);
    TwoPulls(AsStored, n0, n1);
    PulledBothWays(n0, n1, cred);
  }

  lemma UserIsGone(user: Row, cred: Row, d: Time)
    requires user.family == User && cred.family == Credential && At(user) < d
    ensures var k, u := KeyOf(cred), KeyOf(user);
      var n0, n1 := Node(map[u := user, k := cred], map[]), Node(map[], map[u := d]);
      ValidNode(n0) && ValidNode(n1) && !Resolution(n1, n0, u).alive
  {
  }

  lemma SamePast(steps: seq<Step>)
    requires steps == [Merge(1, 0), Merge(0, 1)]
    ensures Past(2, steps, 0) == Past(2, steps, 1)
  {
    var s1 := [Merge(1, 0)];
    assert steps[..1] == s1 && steps[1] == Merge(0, 1);
    PastOfOne(s1);
    assert Past(2, steps, 0) == Past(2, s1, 0) + Past(2, s1, 1) == {0, 1};
    assert Past(2, steps, 1) == Past(2, s1, 1);
  }

  lemma PastOfOne(s1: seq<Step>)
    requires s1 == [Merge(1, 0)]
    ensures Past(2, s1, 0) == {0} && Past(2, s1, 1) == {0, 1}
  {
    assert s1[..0] == [] && Past(2, [], 0) == {0} && Past(2, [], 1) == {1};
    assert Past(2, s1, 1) == Past(2, [], 1) + Past(2, [], 0);
  }

  // ----- equal instants -----

  /** Both nodes hold a row of one instant, and not the same row. */
  predicate Tied(l: Node, r: Node, k: EntityKey) {
    k in l.alive && k in r.alive && At(l.alive[k]) == At(r.alive[k]) && l.alive[k] != r.alive[k]
  }

  /**
   * Merging one way and then the other leaves the two nodes with the same row
   * exactly when they did not hold different rows of one instant that outlives
   * their tombstones; a tie is never broken.
   */
  lemma TiesExactly(c: Cascade, l: Node, r: Node, k: EntityKey)
    requires ValidNode(l) && ValidNode(r) && Unfiltered(k.family)
    requires Undragged(c, l, r, k) && Undragged(c, r, Merged(c, l, r), k)
    ensures var m := Merged(c, l, r);
      RowAt(m, k) == RowAt(Merged(c, r, m), k) <==> !(Tied(l, r, k) && Resolution(l, r, k).alive)
  {
    var m := Merged(c, l, r);
    MergedIsValid(c, l, r);
    UnfilteredRow(c, l, r, k);
    UnfilteredRow(c, r, m, k);
    MergedMark(c, l, r, k);
    TieLaw(RowAt(l, k), RowAt(r, k), MarkAt(l, k), MarkAt(r, k));
  }

  /** The same law on two rows and their marks alone. */
  lemma TieLaw(a: Option<Row>, b: Option<Row>, l: Mark, r: Mark)
    requires l.alive == StampOf(a) && r.alive == StampOf(b)
    ensures var p := Wanted(a, b, Resolved(l, r), true);
      p == Wanted(b, p, Resolved(r, Outcome(l, r)), true) <==>
      !(a.Some? && b.Some? && l.alive == r.alive && a != b && Resolved(l, r).alive)
  {
  }

  lemma UnfilteredCandidate(l: Node, r: Node, k: EntityKey)
    requires ValidNode(l) && ValidNode(r) && Unfiltered(k.family)
    ensures Candidate(l, r, k) == Wanted(RowAt(l, k), RowAt(r, k), Resolution(l, r, k), true)
  {
    CandidateIsWanted(l, r, k);
    assert ParentsAlive(l, r, k);
  }

  lemma UnfilteredRow(c: Cascade, l: Node, r: Node, k: EntityKey)
    requires ValidNode(l) && ValidNode(r) && Unfiltered(k.family) && Undragged(c, l, r, k)
    ensures RowAt(Merged(c, l, r), k) == Wanted(RowAt(l, k), RowAt(r, k), Resolution(l, r, k), true)
  {
    MergedAt(c, l, r, k);
    UnfilteredCandidate(l, r, k);
  }

  /** Two rows of one instant stay apart after both nodes have pulled. */
  lemma TiesKeepLocal(c: Cascade, a: Row, b: Row) returns (init: seq<Node>, steps: seq<Step>)
    requires KeyOf(a) == KeyOf(b) && At(a) == At(b) && a != b && Free(c, a.family) && !NodeLocal(KeyOf(a))
    ensures ValidRun(c, init, steps) && |init| == 2 && Past(2, steps, 0) == Past(2, steps, 1)
    ensures RowAt(NodeAfter(c, init, steps, 0), KeyOf(a)) != RowAt(NodeAfter(c, init, steps, 1), KeyOf(a))
  {
    var k := KeyOf(a);
    var n0, n1 := Node(map[k := a], map[]), Node(map[k := b], map[]);
    init, steps := [n0, n1], [Merge(1, 0), Merge(0, 1)];
    TwoPulls(c, n0, n1);
    MergedIsValid(c, n1, n0);
    FreeUndragged(c, n1, n0, k);
    FreeUndragged(c, n0, Merged(c, n1, n0), k);
    TiesExactly(c, n1, n0, k);
  }
}
