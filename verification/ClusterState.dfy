// A node's view of its cluster: the write gate, the worker leader, and the
// pull-synchronisation status kept per peer.
module ClusterState {
  import opened Wrappers
  import opened Resolve
  import opened Order

  datatype PeerNode = PeerNode(
    nodeId: string, alive: bool, lastSeen: Option<Time>, authenticated: bool, configOk: bool, maxSeq: Option<nat>)
  {
    predicate Eligible() {
      alive && authenticated && configOk
    }
  }

  datatype WriteGate = Open | NoQuorum(eligible: nat, quorum: nat) | SizeExceeded(eligible: nat, clusterSize: nat)

  datatype PeerSync = PeerSync(hwm: nat, hwmAt: Option<Time>, lastReconcile: Option<Time>, firstPassDone: bool, skipped: nat)

  const FRESH_SYNC := PeerSync(0, None, None, false, 0)

  predicate QuorumSatisfied(acks: nat, writeQuorum: Option<nat>) {
    writeQuorum.None? || acks >= writeQuorum.value
  }

  /** Whether a peer's reported counter fell below what was already consumed from it. */
  predicate SyncRewound(hwm: nat, hwmAt: Option<Time>, maxSeq: Option<nat>, lastSeen: Option<Time>) {
    if maxSeq.None? || lastSeen.None? then false
    else if maxSeq.value >= hwm then false
    else match hwmAt
      case Some(at) => lastSeen.value > at
      case None => true
  }

  // ----- specification of the shared state -----

  function EligibleCount(peers: seq<PeerNode>): nat {
    if peers == [] then 0 else EligibleCount(peers[..|peers| - 1]) + (if peers[|peers| - 1].Eligible() then 1 else 0)
  }

  function Gate(writeQuorum: Option<nat>, clusterSize: Option<nat>, eligible: nat): WriteGate {
    if writeQuorum.None? then Open
    else if clusterSize.Some? && eligible > clusterSize.value then SizeExceeded(eligible, clusterSize.value)
    else if eligible < writeQuorum.value then NoQuorum(eligible, writeQuorum.value)
    else Open
  }

  /** The operations on the per-peer sync map. */
  datatype SyncOp =
    | SetPeers(peers: seq<PeerNode>)
    | SetHwm(id: string, hwm: nat, at: Time)
    | ResetHwm(id: string)
    | Complete(id: string, at: Time)
    | Skip(id: string)

  function StatusOf(sync: map<string, PeerSync>, id: string): PeerSync {
    if id in sync then sync[id] else FRESH_SYNC
  }

  predicate Known(peers: seq<PeerNode>, id: string) {
    exists i :: 0 <= i < |peers| && peers[i].nodeId == id
  }

  function SyncStep(sync: map<string, PeerSync>, op: SyncOp): map<string, PeerSync> {
    match op
    case SetPeers(peers) => map id | id in sync && Known(peers, id) :: sync[id]
    case SetHwm(id, hwm, at) => sync[id := StatusOf(sync, id).(hwm := hwm, hwmAt := Some(at))]
    case ResetHwm(id) => sync[id := StatusOf(sync, id).(hwm := 0, hwmAt := None)]
    case Complete(id, at) => sync[id := StatusOf(sync, id).(lastReconcile := Some(at), firstPassDone := true)]
    case Skip(id) => sync[id := StatusOf(sync, id).(skipped := StatusOf(sync, id).skipped + 1)]
  }

  // ----- the shared state itself -----

  class State {
    const nodeId: string
    const writeQuorum: Option<nat>
    const clusterSize: Option<nat>
    var peers: seq<PeerNode>
    var sync: map<string, PeerSync>

    constructor (nodeId: string, writeQuorum: Option<nat>, clusterSize: Option<nat>)
      ensures this.nodeId == nodeId && this.writeQuorum == writeQuorum && this.clusterSize == clusterSize
      ensures peers == [] && sync == map[]
    {
      this.nodeId, this.writeQuorum, this.clusterSize := nodeId, writeQuorum, clusterSize;
      peers, sync := [], map[];
    }

    method ReplacePeers(known: seq<PeerNode>)
      modifies this
      ensures sync == SyncStep(old(sync), SetPeers(known)) && peers == known
      ensures forall id :: id in sync <==> id in old(sync) && exists p :: p in known && p.nodeId == id
      ensures forall id :: id in sync ==> sync[id] == old(sync)[id]
    {
      sync := map id | id in sync && Known(known, id) :: sync[id];
      peers := known;
    }

    method PeerStatus(id: string) returns (s: PeerSync)
      ensures s == StatusOf(sync, id)
    {
      s := if id in sync then sync[id] else FRESH_SYNC;
    }

    method SetSyncHwm(id: string, hwm: nat, at: Time)
      modifies this`sync
      ensures sync == SyncStep(old(sync), SetHwm(id, hwm, at))
    {
      var entry := if id in sync then sync[id] else FRESH_SYNC;
      entry := entry.(hwm := hwm);
      entry := entry.(hwmAt := Some(at));
      sync := sync[id := entry];
    }

    method ResetSyncHwm(id: string)
      modifies this`sync
      ensures sync == SyncStep(old(sync), ResetHwm(id))
    {
      var entry := if id in sync then sync[id] else FRESH_SYNC;
      entry := entry.(hwm := 0);
      entry := entry.(hwmAt := None);
      sync := sync[id := entry];
    }

    method RecordReconcileComplete(id: string, at: Time)
      modifies this`sync
      ensures sync == SyncStep(old(sync), Complete(id, at))
    {
      var entry := if id in sync then sync[id] else FRESH_SYNC;
      entry := entry.(lastReconcile := Some(at));
      entry := entry.(firstPassDone := true);
      sync := sync[id := entry];
    }

    method RecordSkippedEntry(id: string)
      modifies this`sync
      ensures sync == SyncStep(old(sync), Skip(id))
    {
      var entry := if id in sync then sync[id] else FRESH_SYNC;
      entry := entry.(skipped := entry.skipped + 1);
      sync := sync[id := entry];
    }

    method EligibleNodeCount() returns (n: nat)
      ensures n == EligibleCount(peers) + 1
    {
      n := 0;
      for i := 0 to |peers|
        invariant n == EligibleCount(peers[..i])
      {
        assert peers[..i + 1][..i] == peers[..i];
        if peers[i].Eligible() {
          n := n + 1;
        }
      }
      assert peers[..|peers|] == peers;
      n := n + 1;
    }

    method GateNow() returns (g: WriteGate)
      ensures g == Gate(writeQuorum, clusterSize, EligibleCount(peers) + 1)
    {
      if writeQuorum.None? {
        return Open;
      }
      var eligible := EligibleNodeCount();
      if clusterSize.Some? {
        if eligible > clusterSize.value {
          return SizeExceeded(eligible, clusterSize.value);
        }
      }
      if eligible < writeQuorum.value {
        return NoQuorum(eligible, writeQuorum.value);
      }
      return Open;
    }

    method IsWorkerLeader() returns (leads: bool)
      ensures leads == Leads(nodeId, peers)
    {
      for i := 0 to |peers|
        invariant forall j :: 0 <= j < i && peers[j].Eligible() ==> Less(nodeId, peers[j].nodeId)
      {
        if peers[i].Eligible() && !Less(nodeId, peers[i].nodeId) {
          return false;
        }
      }
      return true;
    }
  }

  // ----- quorums -----

  /** The ids a node may count as holding a write: its own and its eligible peers'. */
  function EligibleIds(self: string, peers: seq<PeerNode>): set<string> {
    {self} + set i | 0 <= i < |peers| && peers[i].Eligible() :: peers[i].nodeId
  }

  lemma OneMorePeer(self: string, peers: seq<PeerNode>)
    requires peers != []
    ensures
      var n := |peers| - 1;
      EligibleIds(self, peers) ==
        EligibleIds(self, peers[..n]) + if peers[n].Eligible() then {peers[n].nodeId} else {}
  {
    var n := |peers| - 1;
    assert forall i :: 0 <= i < n ==> peers[..n][i] == peers[i];
  }

  lemma {:induction false} IdsAtMostCount(self: string, peers: seq<PeerNode>)
    ensures |EligibleIds(self, peers)| <= EligibleCount(peers) + 1
    decreases |peers|
  {
    if peers == [] {
      assert EligibleIds(self, peers) == {self};
    } else {
      IdsAtMostCount(self, peers[..|peers| - 1]);
      OneMorePeer(self, peers);
    }
  }

  /** Any two sets of eligible nodes that satisfy the quorum have a node in common. */
  ghost predicate QuorumsIntersect(ids: set<string>, q: nat) {
    forall a, b :: a <= ids && b <= ids && QuorumSatisfied(|a|, Some(q)) && QuorumSatisfied(|b|, Some(q)) ==> a * b != {}
  }

  lemma {:induction false} SubsetOfSize(s: set<string>, n: nat) returns (t: set<string>)
    requires n <= |s|
    ensures t <= s && |t| == n
    decreases n
  {
    if n == 0 {
      t := {};
    } else {
      var x :| x in s;
      t := SubsetOfSize(s - {x}, n - 1);
      t := t + {x};
    }
  }

  lemma Overlap(ids: set<string>, a: set<string>, b: set<string>)
    requires a <= ids && b <= ids && |a| + |b| > |ids|
    ensures a * b != {}
  {
    Fits(a + b, ids);
    assert |a + b| == |a| + |b| - |a * b|;
  }

  lemma {:induction false} Fits(a: set<string>, b: set<string>)
    requires a <= b
    ensures |a| <= |b|
  {
    if a != {} {
      var x :| x in a;
      Fits(a - {x}, b - {x});
    }
  }

  /** Quorums intersect exactly when two of them cannot fit side by side. */
  lemma IntersectionExactly(ids: set<string>, q: nat)
    ensures QuorumsIntersect(ids, q) <==> 2 * q > |ids|
  {
    if 2 * q > |ids| {
      forall a, b | a <= ids && b <= ids && |a| >= q && |b| >= q ensures a * b != {} {
        Overlap(ids, a, b);
      }
    } else {
      var a := SubsetOfSize(ids, q);
      var b := SubsetOfSize(ids - a, q);
      assert a * b == {} && QuorumSatisfied(|a|, Some(q)) && QuorumSatisfied(|b|, Some(q));
    }
  }

  /**
   * An open gate with a majority quorum of the configured size makes every two
   * quorums meet, whatever the membership list contains.
   */
  lemma OpenGateQuorumsMeet(self: string, peers: seq<PeerNode>, size: nat)
    requires Gate(Some(size / 2 + 1), Some(size), EligibleCount(peers) + 1) == Open
    ensures QuorumsIntersect(EligibleIds(self, peers), size / 2 + 1)
  {
    IdsAtMostCount(self, peers);
    IntersectionExactly(EligibleIds(self, peers), size / 2 + 1);
  }

  /** Any quorum of one node's eligible set meets any quorum of another's. */
  ghost predicate ViewsIntersect(a: set<string>, b: set<string>, q: nat) {
    forall x, y :: x <= a && y <= b && QuorumSatisfied(|x|, Some(q)) && QuorumSatisfied(|y|, Some(q)) ==> x * y != {}
  }

  /** Two disjoint quorums, one in each set. */
  lemma ApartQuorums(a: set<string>, b: set<string>, q: nat) returns (x: set<string>, y: set<string>)
    requires |a| >= q && |b| >= q && |a + b| >= 2 * q
    ensures x <= a && y <= b && |x| == q == |y| && x * y == {}
  {
    var own := a - b;
    assert a + b == own + b && own * b == {};
    assert |a + b| == |own| + |b|;
    if |own| >= q {
      x := SubsetOfSize(own, q);
      y := SubsetOfSize(b, q);
    } else {
      var shared := a * b;
      assert a == own + shared && own * shared == {};
      assert |a| == |own| + |shared|;
      var z := SubsetOfSize(shared, q - |own|);
      x := own + z;
      assert own * z == {};
      assert |x| == |own| + |z|;
      assert |b - z| == |b| - |z| by { assert b == (b - z) + z && (b - z) * z == {}; }
      y := SubsetOfSize(b - z, q);
    }
  }

  /**
   * Two nodes may see different peers.  Where both can gather a quorum at all,
   * their quorums meet exactly when twice the quorum exceeds the ids either sees.
   */
  lemma ViewsIntersectExactly(a: set<string>, b: set<string>, q: nat)
    requires |a| >= q && |b| >= q
    ensures ViewsIntersect(a, b, q) <==> 2 * q > |a + b|
  {
    if 2 * q > |a + b| {
      forall x, y | x <= a && y <= b && |x| >= q && |y| >= q ensures x * y != {} {
        Overlap(a + b, x, y);
      }
    } else {
      var x, y := ApartQuorums(a, b, q);
    }
  }

  /** No peer repeats an id, and none carries this node's own. */
  ghost predicate DistinctIds(self: string, peers: seq<PeerNode>) {
    && (forall i :: 0 <= i < |peers| ==> peers[i].nodeId != self)
    && (forall i, j :: 0 <= i < j < |peers| ==> peers[i].nodeId != peers[j].nodeId)
  }

  lemma {:induction false} IdsAreCount(self: string, peers: seq<PeerNode>)
    requires DistinctIds(self, peers)
    ensures |EligibleIds(self, peers)| == EligibleCount(peers) + 1
    decreases |peers|
  {
    if peers == [] {
      assert EligibleIds(self, peers) == {self};
    } else {
      var front, last := peers[..|peers| - 1], peers[|peers| - 1];
      IdsAreCount(self, front);
      OneMorePeer(self, peers);
      NewId(self, peers);
      GrowsByOne(EligibleIds(self, front), last.nodeId);
    }
  }

  lemma GrowsByOne(ids: set<string>, id: string)
    requires id !in ids
    ensures |ids + {id}| == |ids| + 1 && |ids + {}| == |ids|
  {
    assert ids + {} == ids;
  }

  lemma NewId(self: string, peers: seq<PeerNode>)
    requires DistinctIds(self, peers) && peers != []
    ensures peers[|peers| - 1].nodeId !in EligibleIds(self, peers[..|peers| - 1])
  {
    InEligibleIds(self, peers[..|peers| - 1], peers[|peers| - 1].nodeId);
  }

  /** With distinct ids the gate is open exactly when some quorum of eligible nodes exists. */
  lemma GateExactly(self: string, peers: seq<PeerNode>, size: nat)
    requires DistinctIds(self, peers) && EligibleCount(peers) + 1 <= size
    ensures Gate(Some(size / 2 + 1), Some(size), EligibleCount(peers) + 1) == Open <==>
      exists a :: a <= EligibleIds(self, peers) && QuorumSatisfied(|a|, Some(size / 2 + 1))
  {
    IdsAreCount(self, peers);
    QuorumAmong(EligibleIds(self, peers), size / 2 + 1);
  }

  /** A set has a quorum inside it exactly when it is large enough itself. */
  lemma QuorumAmong(ids: set<string>, q: nat)
    ensures |ids| >= q <==> exists a :: a <= ids && QuorumSatisfied(|a|, Some(q))
  {
    if |ids| >= q {
      assert ids <= ids && QuorumSatisfied(|ids|, Some(q));
    } else {
      forall a | a <= ids ensures !QuorumSatisfied(|a|, Some(q)) {
        Fits(a, ids);
      }
    }
  }

  function EligibleOnly(peers: seq<PeerNode>): seq<PeerNode> {
    if peers == [] then []
    else EligibleOnly(peers[..|peers| - 1]) + (if peers[|peers| - 1].Eligible() then [peers[|peers| - 1]] else [])
  }

  lemma {:induction false} CountIsLength(peers: seq<PeerNode>)
    ensures EligibleCount(peers) == |EligibleOnly(peers)|
    ensures forall p :: p in EligibleOnly(peers) <==> p in peers && p.Eligible()
    decreases |peers|
  {
    if peers != [] {
      CountIsLength(peers[..|peers| - 1]);
      assert peers == peers[..|peers| - 1] + [peers[|peers| - 1]];
    }
  }

  /** Peers that are not eligible sway neither the gate, nor the quorums, nor the leader. */
  lemma IneligiblePeersIgnored(self: string, p: seq<PeerNode>, q: seq<PeerNode>, w: Option<nat>, size: Option<nat>)
    requires EligibleOnly(p) == EligibleOnly(q)
    ensures Gate(w, size, EligibleCount(p) + 1) == Gate(w, size, EligibleCount(q) + 1)
    ensures EligibleIds(self, p) == EligibleIds(self, q)
    ensures Leads(self, p) == Leads(self, q)
  {
    CountIsLength(p);
    CountIsLength(q);
    assert forall x :: x in p && x.Eligible() <==> x in q && x.Eligible();
    forall id ensures id in EligibleIds(self, p) <==> id in EligibleIds(self, q) {
      InEligibleIds(self, p, id);
      InEligibleIds(self, q, id);
    }
    LeadsByIds(self, p);
    LeadsByIds(self, q);
  }

  lemma InEligibleIds(self: string, peers: seq<PeerNode>, id: string)
    ensures id in EligibleIds(self, peers) <==> id == self || exists p :: p in peers && p.Eligible() && p.nodeId == id
  {
  }

  // ----- the worker leader -----

  /** This node's id is below every eligible peer's. */
  ghost predicate Leads(self: string, peers: seq<PeerNode>) {
    forall j :: 0 <= j < |peers| && peers[j].Eligible() ==> Less(self, peers[j].nodeId)
  }

  lemma LeadsByIds(self: string, peers: seq<PeerNode>)
    ensures Leads(self, peers) <==> forall p :: p in peers && p.Eligible() ==> Less(self, p.nodeId)
  {
  }

  /** Every member sees exactly the others as eligible. */
  ghost predicate Agreed(members: set<string>, views: map<string, seq<PeerNode>>) {
    && views.Keys == members
    && (forall m :: m in members ==> DistinctIds(m, views[m]) && EligibleIds(m, views[m]) == members)
  }

  lemma {:induction false} LeastMember(members: set<string>) returns (m: string)
    requires members != {}
    ensures m in members && forall x :: x in members && x != m ==> Less(m, x)
  {
    m :| m in members;
    if members != {m} {
      var rest := members - {m};
      var least := LeastMember(rest);
      LessTotal(m, least);
      if Less(least, m) {
        m := least;
      } else {
        forall x | x in rest && x != least ensures Less(m, x) {
          LessTransitive(m, least, x);
        }
      }
    }
  }

  /** In a settled cluster exactly one node holds the worker role. */
  lemma OneLeader(members: set<string>, views: map<string, seq<PeerNode>>) returns (m: string)
    requires members != {} && Agreed(members, views)
    ensures m in members && Leads(m, views[m])
    ensures forall x :: x in members && Leads(x, views[x]) ==> x == m
  {
    m := LeastMember(members);
    forall j | 0 <= j < |views[m]| && views[m][j].Eligible() ensures Less(m, views[m][j].nodeId) {
      InEligibleIds(m, views[m], views[m][j].nodeId);
    }
    forall x | x in members && Leads(x, views[x]) ensures x == m {
      InEligibleIds(x, views[x], m);
      if x != m {
        LessAsymmetric(m, x);
      }
    }
  }

  // ----- the sync map over runs -----

  function SyncRun(ops: seq<SyncOp>): map<string, PeerSync> {
    if ops == [] then map[] else SyncStep(SyncRun(ops[..|ops| - 1]), ops[|ops| - 1])
  }

  /** The operations since the peer was last dropped from the membership. */
  function Since(ops: seq<SyncOp>, id: string): seq<SyncOp> {
    if ops == [] then []
    else
      var last := ops[|ops| - 1];
      if last.SetPeers? && !Known(last.peers, id) then [] else Since(ops[..|ops| - 1], id) + [last]
  }

  /** The last mark set toward `id`, zero if there is none or it was reset since. */
  function LastMark(ops: seq<SyncOp>, id: string): (nat, Option<Time>) {
    if ops == [] then (0, None)
    else
      match ops[|ops| - 1]
      case SetHwm(x, hwm, at) => if x == id then (hwm, Some(at)) else LastMark(ops[..|ops| - 1], id)
      case ResetHwm(x) => if x == id then (0, None) else LastMark(ops[..|ops| - 1], id)
      case _ => LastMark(ops[..|ops| - 1], id)
  }

  function LastPass(ops: seq<SyncOp>, id: string): Option<Time> {
    if ops == [] then None
    else
      match ops[|ops| - 1]
      case Complete(x, at) => if x == id then Some(at) else LastPass(ops[..|ops| - 1], id)
      case _ => LastPass(ops[..|ops| - 1], id)
  }

  function Skips(ops: seq<SyncOp>, id: string): nat {
    if ops == [] then 0
    else Skips(ops[..|ops| - 1], id) + if ops[|ops| - 1] == Skip(id) then 1 else 0
  }

  /**
   * What a peer's entry tells its reader, over every run of map operations: the
   * last mark not reset, the last completed pass and the number of skipped
   * entries, all since the peer was last dropped.
   */
  lemma {:induction false} StatusIsHistory(ops: seq<SyncOp>, id: string)
    ensures
      var s, h := StatusOf(SyncRun(ops), id), Since(ops, id);
      && (s.hwm, s.hwmAt) == LastMark(h, id)
      && s.lastReconcile == LastPass(h, id) && (s.firstPassDone <==> LastPass(h, id).Some?)
      && s.skipped == Skips(h, id)
  {
    if ops != [] {
      var front, last := ops[..|ops| - 1], ops[|ops| - 1];
      StatusIsHistory(front, id);
      if !(last.SetPeers? && !Known(last.peers, id)) {
        assert Since(ops, id)[..|Since(ops, id)| - 1] == Since(front, id);
      }
    }
  }

  lemma {:induction false} HwmHasItsTime(ops: seq<SyncOp>, id: string)
    ensures StatusOf(SyncRun(ops), id).hwmAt.None? ==> StatusOf(SyncRun(ops), id).hwm == 0
  {
    if ops != [] {
      HwmHasItsTime(ops[..|ops| - 1], id);
    }
  }

  /** In every reachable state a rewind is judged by a recorded instant, never by default. */
  lemma FallbackUnreachable(ops: seq<SyncOp>, id: string, maxSeq: Option<nat>, lastSeen: Option<Time>)
    requires var s := StatusOf(SyncRun(ops), id); SyncRewound(s.hwm, s.hwmAt, maxSeq, lastSeen)
    ensures StatusOf(SyncRun(ops), id).hwmAt.Some?
  {
    HwmHasItsTime(ops, id);
  }

  /** The run toward `id` is honest for a counter: it only consumed what the counter had reached. */
  ghost predicate HonestAdvances(ops: seq<SyncOp>, id: string, count: Time -> nat) {
    forall i :: 0 <= i < |ops| && ops[i].SetHwm? && ops[i].id == id ==> ops[i].hwm <= count(ops[i].at)
  }

  ghost predicate NeverDecreases(count: Time -> nat) {
    forall s: Time, t: Time :: s <= t ==> count(s) <= count(t)
  }

  lemma {:induction false} MarkWasReached(ops: seq<SyncOp>, id: string, count: Time -> nat)
    requires HonestAdvances(ops, id, count)
    ensures var s := StatusOf(SyncRun(ops), id); s.hwmAt.Some? ==> s.hwm <= count(s.hwmAt.value)
  {
    if ops != [] {
      assert HonestAdvances(ops[..|ops| - 1], id, count);
      MarkWasReached(ops[..|ops| - 1], id, count);
    }
  }

  /** The report `(reported, stamped)` about `id` would be taken for a rewind after `ops`. */
  ghost predicate Flagged(ops: seq<SyncOp>, id: string, reported: nat, stamped: Time) {
    var s := StatusOf(SyncRun(ops), id);
    SyncRewound(s.hwm, s.hwmAt, Some(reported), Some(stamped))
  }

  /**
   * A report is stamped when all probes of a round are back, so later than it
   * was taken.  For a counter that never decreases, no run can be flagged by a
   * report taken at `taken` and stamped `stamped` exactly when the counter did
   * not move in between, up to the last instant before the stamp.
   */
  lemma NoFalseAlarmExactly(id: string, count: Time -> nat, taken: Time, stamped: Time)
    requires NeverDecreases(count)
    ensures (forall ops :: HonestAdvances(ops, id, count) ==> !Flagged(ops, id, count(taken), stamped))
      <==> stamped == 0 || count(stamped - 1) <= count(taken)
  {
    if stamped == 0 || count(stamped - 1) <= count(taken) {
      forall ops | HonestAdvances(ops, id, count) ensures !Flagged(ops, id, count(taken), stamped) {
        HwmHasItsTime(ops, id);
        MarkWasReached(ops, id, count);
      }
    } else {
      var ops := [SetHwm(id, count(stamped - 1), stamped - 1)];
      assert ops[..0] == [];
      assert HonestAdvances(ops, id, count) && Flagged(ops, id, count(taken), stamped);
    }
  }

  /** In particular a report stamped when taken, or no later than the next advance of the counter, is safe. */
  lemma NoFalseAlarm(ops: seq<SyncOp>, id: string, count: Time -> nat, taken: Time, stamped: Time)
    requires NeverDecreases(count) && HonestAdvances(ops, id, count)
    requires stamped <= taken || count(stamped) == count(taken)
    ensures !Flagged(ops, id, count(taken), stamped)
  {
    NoFalseAlarmExactly(id, count, taken, stamped);
  }

  /** A counter that moved while the report waited for its stamp, and a run flagged for it. */
  lemma LateStampFalseAlarm() returns (ops: seq<SyncOp>, count: Time -> nat, taken: Time, stamped: Time)
    ensures NeverDecreases(count) && HonestAdvances(ops, "p", count) && taken < stamped
    ensures Flagged(ops, "p", count(taken), stamped)
  {
    count := (t: Time) => t as nat;
    taken, stamped := 1, 3;
    NoFalseAlarmExactly("p", count, taken, stamped);
    ops :| HonestAdvances(ops, "p", count) && Flagged(ops, "p", count(taken), stamped);
  }

  /** Operations that leave the mark toward `id` alone and keep the peer known. */
  ghost predicate Quiet(op: SyncOp, id: string) {
    match op
    case SetPeers(peers) => Known(peers, id)
    case SetHwm(x, _, _) => x != id
    case ResetHwm(x) => x != id
    case _ => true
  }

  lemma {:induction false} QuietKeepsMark(ops: seq<SyncOp>, quiet: seq<SyncOp>, id: string)
    requires id in SyncRun(ops) && forall i :: 0 <= i < |quiet| ==> Quiet(quiet[i], id)
    ensures id in SyncRun(ops + quiet)
    ensures SyncRun(ops + quiet)[id].hwm == SyncRun(ops)[id].hwm
    ensures SyncRun(ops + quiet)[id].hwmAt == SyncRun(ops)[id].hwmAt
    decreases |quiet|
  {
    if quiet == [] {
      assert ops + quiet == ops;
    } else {
      var n := |quiet| - 1;
      QuietKeepsMark(ops, quiet[..n], id);
      assert (ops + quiet)[..|ops + quiet| - 1] == ops + quiet[..n];
    }
  }

  /**
   * A restored peer, reporting below the mark, is flagged by exactly the
   * reports later than the last advance, however long the quiet period before.
   */
  lemma RestoreIsDetected(ops: seq<SyncOp>, id: string, hwm: nat, at: Time, quiet: seq<SyncOp>, maxSeq: nat, seen: Time)
    requires maxSeq < hwm && forall i :: 0 <= i < |quiet| ==> Quiet(quiet[i], id)
    ensures Flagged(ops + [SetHwm(id, hwm, at)] + quiet, id, maxSeq, seen) <==> seen > at
  {
    var advanced := ops + [SetHwm(id, hwm, at)];
    assert advanced[..|advanced| - 1] == ops;
    QuietKeepsMark(advanced, quiet, id);
  }

  // ----- which peers count -----

  /** A peer that is down, unproven or misconfigured can be taken out of the list without effect. */
  lemma FailingPeerIgnored(self: string, p: seq<PeerNode>, x: PeerNode, q: seq<PeerNode>)
    requires !x.alive || !x.authenticated || !x.configOk
    ensures EligibleOnly(p + [x] + q) == EligibleOnly(p + q)
    ensures EligibleCount(p + [x] + q) == EligibleCount(p + q) && EligibleIds(self, p + [x] + q) == EligibleIds(self, p + q)
    ensures Leads(self, p + [x] + q) == Leads(self, p + q)
  {
    EligibleWithout(p, x, q);
    IneligiblePeersIgnored(self, p + [x] + q, p + q, None, None);
    CountIsLength(p + [x] + q);
    CountIsLength(p + q);
  }

  lemma {:induction false} EligibleConcat(a: seq<PeerNode>, b: seq<PeerNode>)
    ensures EligibleOnly(a + b) == EligibleOnly(a) + EligibleOnly(b)
    decreases |b|
  {
    if b == [] {
      assert a + b == a && EligibleOnly(b) == [];
    } else {
      var front, last := b[..|b| - 1], b[|b| - 1];
      assert (a + b)[..|a + b| - 1] == a + front;
      EligibleConcat(a, front);
    }
  }

  lemma EligibleWithout(p: seq<PeerNode>, x: PeerNode, q: seq<PeerNode>)
    ensures EligibleOnly(p + [x] + q) ==
      EligibleOnly(p) + (if x.alive && x.authenticated && x.configOk then [x] else []) + EligibleOnly(q)
    ensures EligibleOnly(p + q) == EligibleOnly(p) + EligibleOnly(q)
  {
    EligibleConcat(p + [x], q);
    EligibleConcat(p, [x]);
    EligibleConcat(p, q);
    assert [x][..0] == [] && EligibleOnly([]) == [];
  }

  /** A peer that passes all three tests counts once. */
  lemma SoundPeerCounts(p: seq<PeerNode>, x: PeerNode, q: seq<PeerNode>)
    requires x.alive && x.authenticated && x.configOk
    ensures EligibleCount(p + [x] + q) == EligibleCount(p + q) + 1
  {
    EligibleWithout(p, x, q);
    CountIsLength(p + [x] + q);
    CountIsLength(p + q);
  }

  /** Without a quorum every write may go ahead; with one, too many nodes are worse than too few. */
  lemma GateModes(size: Option<nat>, q: nat, n: nat, acks: nat)
    ensures Gate(None, size, n) == Open && QuorumSatisfied(acks, None)
    ensures size.Some? && n > size.value ==> Gate(Some(q), size, n) == SizeExceeded(n, size.value)
    ensures (size.Some? ==> n <= size.value) && n < q ==> Gate(Some(q), size, n) == NoQuorum(n, q)
  {
  }
}
