// Replicated object rows: one primary clock, two independent in-place
// registers, and a whole-row tie-break between concurrent overwrites.
module ObjectRow {
  import opened Wrappers
  import opened Resolve
  import opened Order

  /** The columns ordered by `lockAt`. */
  datatype Lock = Lock(retentionMode: Option<string>, retainUntil: Option<Time>, legalHold: Option<string>)

  /** The columns ordered by `contentAt`. */
  datatype Content = Content(blobId: string, algorithm: Option<string>, keyId: Option<string>)

  /** The columns no merge changes in place. */
  datatype Other = Other(
    bucket: string, key: string, versionId: Option<string>, size: nat, contentType: Option<string>,
    metadata: map<string, string>, owner: string, storageClass: string, deleteMarker: bool, tombstone: bool,
    checksumAlgorithm: Option<string>, checksumValue: Option<string>, parts: Option<seq<nat>>,
    replicationStatus: Option<string>)

  datatype ObjectRecord = ObjectRecord(
    lastModified: Time, etag: string, other: Other,
    lock: Lock, lockAt: Option<Time>, content: Content, contentAt: Option<Time>,
    isLatest: bool)

  /** Equal but for the locally derived `isLatest`. */
  predicate SameReplicated(a: ObjectRecord, b: ObjectRecord) {
    a.(isLatest := false) == b.(isLatest := false)
  }

  /** The row a node holds once `incoming` has been delivered to it. */
  function Join(local: ObjectRecord, incoming: ObjectRecord): ObjectRecord {
    if incoming.lastModified != local.lastModified then
      if incoming.lastModified > local.lastModified then incoming else local
    else if incoming.etag != local.etag then
      if Less(local.content.blobId, incoming.content.blobId) then incoming else local
    else
      local.(
        lock := if Before(local.lockAt, incoming.lockAt) then incoming.lock else local.lock,
        lockAt := Newest(local.lockAt, incoming.lockAt),
        content := if Before(local.contentAt, incoming.contentAt) then incoming.content else local.content,
        contentAt := Newest(local.contentAt, incoming.contentAt))
  }

  /** `Some` row to persist, or `None` to keep the local one. */
  method ResolveReplicated(incoming: ObjectRecord, local: ObjectRecord) returns (r: Option<ObjectRecord>)
    ensures r == if SameReplicated(Join(local, incoming), local) then None else Some(Join(local, incoming))
  {
    if incoming.lastModified > local.lastModified {
      return Some(incoming);
    } else if incoming.lastModified < local.lastModified {
      return None;
    }
    if incoming.etag != local.etag {
      if Less(local.content.blobId, incoming.content.blobId) {
        return Some(incoming);
      }
      return None;
    }
    var merged := local;
    if Before(local.lockAt, incoming.lockAt) {
      merged := merged.(lock := incoming.lock);
      merged := merged.(lockAt := incoming.lockAt);
    }
    if Before(local.contentAt, incoming.contentAt) {
      merged := merged.(content := incoming.content);
      merged := merged.(contentAt := incoming.contentAt);
    }
    if merged.(isLatest := false) == local.(isLatest := false) {
      return None;
    }
    return Some(merged);
  }

  /** Every adopted row climbs: no clock goes back, and one moves forward. */
  lemma AdoptedRowClimbs(local: ObjectRecord, incoming: ObjectRecord)
    requires !SameReplicated(Join(local, incoming), local)
    ensures
      var j := Join(local, incoming);
      || j.lastModified > local.lastModified
      || (j.lastModified == local.lastModified && j.etag != local.etag && Less(local.content.blobId, j.content.blobId))
      || (&& j.lastModified == local.lastModified && j.etag == local.etag
          && !Before(j.lockAt, local.lockAt) && !Before(j.contentAt, local.contentAt)
          && (Before(local.lockAt, j.lockAt) || Before(local.contentAt, j.contentAt)))
  {
  }

  /** `isLatest` influences nothing but itself. */
  lemma JoinIgnoresLatest(a: ObjectRecord, b: ObjectRecord, x: bool, y: bool)
    ensures SameReplicated(Join(a, b), Join(a.(isLatest := x), b.(isLatest := y)))
  {
  }

  // ----- two rows -----

  predicate SameLineage(a: ObjectRecord, b: ObjectRecord) {
    a.lastModified == b.lastModified && a.etag == b.etag
  }

  /** Concurrent overwrites that share an instant. */
  predicate Rivals(a: ObjectRecord, b: ObjectRecord) {
    a.lastModified == b.lastModified && a.etag != b.etag
  }

  /** Equal stamps mean equal values, and concurrent overwrites have distinct blobs. */
  predicate Coherent(a: ObjectRecord, b: ObjectRecord) {
    && (SameLineage(a, b) ==>
          && a.other == b.other
          && (a.lockAt == b.lockAt ==> a.lock == b.lock)
          && (a.contentAt == b.contentAt ==> a.content == b.content))
    && (Rivals(a, b) ==> a.content.blobId != b.content.blobId)
  }

  /** The order of two deliveries is immaterial exactly for coherent rows. */
  lemma CommutesExactly(a: ObjectRecord, b: ObjectRecord)
    ensures SameReplicated(Join(a, b), Join(b, a)) <==> Coherent(a, b)
  {
    LessTotal(a.content.blobId, b.content.blobId);
    if Less(a.content.blobId, b.content.blobId) {
      LessAsymmetric(a.content.blobId, b.content.blobId);
    }
    if Less(b.content.blobId, a.content.blobId) {
      LessAsymmetric(b.content.blobId, a.content.blobId);
    }
  }

  // ----- the two registers -----

  /** Deliveries in order to a node that holds `start`. */
  function Deliver(start: ObjectRecord, rows: seq<ObjectRecord>): ObjectRecord {
    if rows == [] then start else Join(Deliver(start, rows[..|rows| - 1]), rows[|rows| - 1])
  }

  /** `w` is the first position with the greatest stamp. */
  ghost predicate FirstGreatest(stamps: seq<Option<Time>>, w: nat) {
    && w < |stamps|
    && (forall i :: 0 <= i < |stamps| ==> !Before(stamps[w], stamps[i]))
    && (forall i :: 0 <= i < w ==> Before(stamps[i], stamps[w]))
  }

  function LockStamps(rows: seq<ObjectRecord>): seq<Option<Time>> {
    seq(|rows|, i requires 0 <= i < |rows| => rows[i].lockAt)
  }

  function ContentStamps(rows: seq<ObjectRecord>): seq<Option<Time>> {
    seq(|rows|, i requires 0 <= i < |rows| => rows[i].contentAt)
  }

  lemma {:induction false} LineageKept(start: ObjectRecord, rows: seq<ObjectRecord>)
    requires forall i :: 0 <= i < |rows| ==> SameLineage(start, rows[i])
    ensures SameLineage(start, Deliver(start, rows)) && Deliver(start, rows).other == start.other
    decreases |rows|
  {
    if rows != [] {
      LineageKept(start, rows[..|rows| - 1]);
    }
  }

  /** One more stamp: the first greatest stays unless the new one beats it. */
  lemma FirstGreatestAppend(stamps: seq<Option<Time>>, w: nat, s: Option<Time>)
    requires FirstGreatest(stamps, w)
    ensures FirstGreatest(stamps + [s], if Before(stamps[w], s) then |stamps| else w)
  {
  }

  /**
   * Within one lineage the lock follows its own clock alone: it comes from the
   * first delivery with the greatest lock stamp.
   */
  lemma {:induction false} LockFollowsItsClock(start: ObjectRecord, rows: seq<ObjectRecord>) returns (w: nat)
    requires forall i :: 0 <= i < |rows| ==> SameLineage(start, rows[i])
    ensures FirstGreatest(LockStamps([start] + rows), w)
    ensures Deliver(start, rows).lock == ([start] + rows)[w].lock
    ensures Deliver(start, rows).lockAt == ([start] + rows)[w].lockAt
    decreases |rows|
  {
    if rows == [] {
      w := 0;
    } else {
      var n := |rows| - 1;
      w := LockFollowsItsClock(start, rows[..n]);
      LineageKept(start, rows[..n]);
      assert LockStamps([start] + rows) == LockStamps([start] + rows[..n]) + [rows[n].lockAt];
      FirstGreatestAppend(LockStamps([start] + rows[..n]), w, rows[n].lockAt);
      if Before(([start] + rows[..n])[w].lockAt, rows[n].lockAt) { w := n + 1; }
    }
  }

  /** Likewise the content: from the first delivery with the greatest content stamp. */
  lemma {:induction false} ContentFollowsItsClock(start: ObjectRecord, rows: seq<ObjectRecord>) returns (w: nat)
    requires forall i :: 0 <= i < |rows| ==> SameLineage(start, rows[i])
    ensures FirstGreatest(ContentStamps([start] + rows), w)
    ensures Deliver(start, rows).content == ([start] + rows)[w].content
    ensures Deliver(start, rows).contentAt == ([start] + rows)[w].contentAt
    decreases |rows|
  {
    if rows == [] {
      w := 0;
    } else {
      var n := |rows| - 1;
      w := ContentFollowsItsClock(start, rows[..n]);
      LineageKept(start, rows[..n]);
      assert ContentStamps([start] + rows) == ContentStamps([start] + rows[..n]) + [rows[n].contentAt];
      FirstGreatestAppend(ContentStamps([start] + rows[..n]), w, rows[n].contentAt);
      if Before(([start] + rows[..n])[w].contentAt, rows[n].contentAt) { w := n + 1; }
    }
  }

  // ----- any set of rows -----

  /**
   * A rival `b` that stands between two rows of one lineage does no harm when
   * the row above it is the newer one: its content is, and its lock is not older.
   */
  predicate Settles(u: ObjectRecord, b: ObjectRecord, v: ObjectRecord) {
    (&& SameLineage(u, v) && Rivals(u, b)
     && Less(v.content.blobId, b.content.blobId) && Less(b.content.blobId, u.content.blobId)) ==>
    Before(v.contentAt, u.contentAt) && !Before(u.lockAt, v.lockAt)
  }

  /** Rows are pairwise coherent, and no rival stands between two rows of one lineage to harm. */
  ghost predicate Separated(rows: set<ObjectRecord>) {
    && (forall a, b {:trigger Coherent(a, b)} :: a in rows && b in rows ==> Coherent(a, b))
    && (forall u, b, v {:trigger Settles(u, b, v)} :: u in rows && b in rows && v in rows ==> Settles(u, b, v))
  }

  predicate LockSource(a: ObjectRecord, f: ObjectRecord) {
    SameLineage(a, f) && a.lockAt == f.lockAt && a.lock == f.lock
  }

  predicate ContentSource(a: ObjectRecord, f: ObjectRecord) {
    SameLineage(a, f) && a.contentAt == f.contentAt && a.content == f.content && a.other == f.other
  }

  /** `f` is at least as new as `a` in every respect that decides a merge. */
  predicate Covers(f: ObjectRecord, a: ObjectRecord) {
    && a.lastModified <= f.lastModified
    && (Rivals(a, f) ==> Less(a.content.blobId, f.content.blobId))
    && (SameLineage(a, f) ==> !Before(f.lockAt, a.lockAt) && !Before(f.contentAt, a.contentAt))
  }

  /** `f` is the join of `rows`: made of them, and covering them all. */
  ghost predicate IsJoin(rows: set<ObjectRecord>, f: ObjectRecord) {
    && (exists a :: a in rows && LockSource(a, f))
    && (exists a :: a in rows && ContentSource(a, f))
    && (forall a {:trigger Covers(f, a)} :: a in rows ==> Covers(f, a))
  }

  /** The rows a join's two registers come from. */
  lemma Sources(rows: set<ObjectRecord>, f: ObjectRecord) returns (u: ObjectRecord, v: ObjectRecord)
    requires IsJoin(rows, f)
    ensures u in rows && LockSource(u, f) && v in rows && ContentSource(v, f)
  {
    u :| u in rows && LockSource(u, f);
    v :| v in rows && ContentSource(v, f);
  }

  /** What a join covers is covered by any join of the lineage with later stamps. */
  lemma CoveredWithin(rows: set<ObjectRecord>, x: ObjectRecord, f: ObjectRecord, a: ObjectRecord, j: ObjectRecord, b: ObjectRecord)
    requires Separated(rows) && x in rows && a in rows && b in rows
    requires ContentSource(a, f) && ContentSource(b, j) && SameLineage(f, j) && Covers(f, x)
    requires !Before(j.lockAt, f.lockAt) && !Before(j.contentAt, f.contentAt)
    ensures Covers(j, x)
  {
    if Rivals(x, j) {
      assert Coherent(x, b) && Settles(a, x, b);
      LessTotal(x.content.blobId, b.content.blobId);
    }
  }

  lemma JoinWithin(s: set<ObjectRecord>, t: set<ObjectRecord>, f: ObjectRecord, g: ObjectRecord)
    requires Separated(s + t) && IsJoin(s, f) && IsJoin(t, g) && SameLineage(f, g)
    ensures IsJoin(s + t, Join(f, g))
  {
    var j, all := Join(f, g), s + t;
    var u, v := Sources(s, f);
    var u', v' := Sources(t, g);
    assert Coherent(v, v');
    var w := if Before(f.contentAt, g.contentAt) then v' else v;
    assert w in all && ContentSource(w, j);
    var z := if Before(f.lockAt, g.lockAt) then u' else u;
    assert z in all && LockSource(z, j);
    forall x | x in all ensures Covers(j, x) {
      if x in s {
        assert Covers(f, x);
        CoveredWithin(all, x, f, v, j, w);
      } else {
        assert Covers(g, x);
        CoveredWithin(all, x, g, v', j, w);
      }
    }
  }

  /** A rival lineage with the greater blob covers everything the other covers. */
  lemma CoveredByRival(rows: set<ObjectRecord>, x: ObjectRecord, f: ObjectRecord, a: ObjectRecord, g: ObjectRecord, b: ObjectRecord)
    requires Separated(rows) && x in rows && a in rows && b in rows && ContentSource(a, f) && ContentSource(b, g)
    requires Rivals(f, g) && Less(f.content.blobId, g.content.blobId) && Covers(f, x) && Covers(g, b)
    ensures Covers(g, x)
  {
    if SameLineage(x, g) {
      assert Settles(b, a, x);
    } else if Rivals(x, g) {
      if SameLineage(x, f) {
        assert Coherent(x, b) && Settles(x, b, a);
        LessTotal(x.content.blobId, b.content.blobId);
      } else {
        LessTransitive(x.content.blobId, f.content.blobId, g.content.blobId);
      }
    }
  }

  lemma JoinRivals(s: set<ObjectRecord>, t: set<ObjectRecord>, f: ObjectRecord, g: ObjectRecord)
    requires Separated(s + t) && IsJoin(s, f) && IsJoin(t, g) && Rivals(f, g)
    requires Less(f.content.blobId, g.content.blobId)
    ensures IsJoin(s + t, g)
  {
    var _, v := Sources(s, f);
    var u', v' := Sources(t, g);
    assert u' in s + t && v' in s + t;
    forall x | x in s + t ensures Covers(g, x) {
      if x in s {
        assert Covers(f, x) && Covers(g, v');
        CoveredByRival(s + t, x, f, v, g, v');
      }
    }
  }

  lemma JoinNewer(s: set<ObjectRecord>, t: set<ObjectRecord>, f: ObjectRecord, g: ObjectRecord)
    requires IsJoin(s, f) && IsJoin(t, g) && f.lastModified < g.lastModified
    ensures IsJoin(s + t, g)
  {
    var u', v' := Sources(t, g);
    assert u' in s + t && v' in s + t;
    forall x | x in s + t ensures Covers(g, x) {
      if x in s {
        assert Covers(f, x);
      }
    }
  }

  /** Merging the joins of two sets of rows gives the join of their union. */
  lemma JoinOfJoins(s: set<ObjectRecord>, t: set<ObjectRecord>, f: ObjectRecord, g: ObjectRecord)
    requires Separated(s + t) && IsJoin(s, f) && IsJoin(t, g)
    ensures IsJoin(s + t, Join(f, g))
  {
    assert t + s == s + t;
    if f.lastModified < g.lastModified {
      JoinNewer(s, t, f, g);
    } else if g.lastModified < f.lastModified {
      JoinNewer(t, s, g, f);
    } else if f.etag == g.etag {
      JoinWithin(s, t, f, g);
    } else {
      var _, v := Sources(s, f);
      var _, v' := Sources(t, g);
      assert Coherent(v, v');
      LessTotal(f.content.blobId, g.content.blobId);
      if Less(f.content.blobId, g.content.blobId) {
        JoinRivals(s, t, f, g);
      } else {
        JoinRivals(t, s, g, f);
      }
    }
  }

  /** A set of rows has one join, up to `isLatest`. */
  lemma JoinIsUnique(s: set<ObjectRecord>, f: ObjectRecord, g: ObjectRecord)
    requires Separated(s) && IsJoin(s, f) && IsJoin(s, g)
    ensures SameReplicated(f, g)
  {
    var u, v := Sources(s, f);
    var u', v' := Sources(s, g);
    assert Covers(f, v') && Covers(g, v);
    if Rivals(f, g) {
      LessAsymmetric(f.content.blobId, g.content.blobId);
    }
    assert SameLineage(f, g) && Coherent(v, v');
    assert Covers(f, u') && Covers(g, u) && Coherent(u, u');
  }

  /** Merging is associative, commutative and idempotent on separated rows. */
  lemma JoinLaws(a: ObjectRecord, b: ObjectRecord, c: ObjectRecord)
    requires Separated({a, b, c})
    ensures SameReplicated(Join(Join(a, b), c), Join(a, Join(b, c)))
    ensures SameReplicated(Join(a, b), Join(b, a)) && SameReplicated(Join(a, a), a)
  {
    OneRow(a);
    OneRow(b);
    OneRow(c);
    SeparatedSubset({a} + {b}, {a, b, c});
    SeparatedSubset({b} + {c}, {a, b, c});
    assert {a} + {b} + {c} == {a, b, c} && {a} + ({b} + {c}) == {a, b, c};
    JoinOfJoins({a}, {b}, a, b);
    JoinOfJoins({a} + {b}, {c}, Join(a, b), c);
    JoinOfJoins({b}, {c}, b, c);
    JoinOfJoins({a}, {b} + {c}, a, Join(b, c));
    JoinIsUnique({a, b, c}, Join(Join(a, b), c), Join(a, Join(b, c)));
    assert Coherent(a, b);
    CommutesExactly(a, b);
  }

  /** A row already absorbed changes nothing when it is delivered again. */
  lemma RedeliveryIgnored(s: set<ObjectRecord>, f: ObjectRecord, a: ObjectRecord)
    requires IsJoin(s, f) && a in s
    ensures SameReplicated(Join(f, a), f)
  {
    assert Covers(f, a);
    if Rivals(a, f) {
      LessAsymmetric(a.content.blobId, f.content.blobId);
    }
  }

  // ----- runs over many nodes -----

  /** A row of the version is written at node `i`, or node `i` pulls node `j`'s row. */
  datatype Step = Write(i: nat, row: ObjectRecord) | Pull(i: nat, j: nat)

  /** A local write is newer than the row it replaces: delivered, it would prevail whole. */
  predicate Prevails(held: Option<ObjectRecord>, row: ObjectRecord) {
    held.None? || SameReplicated(Join(held.value, row), row)
  }

  predicate ValidRun(steps: seq<Step>)
    decreases |steps|
  {
    steps == [] ||
      var n := |steps| - 1;
      ValidRun(steps[..n]) && (steps[n].Write? ==> Prevails(Held(steps[..n], steps[n].i), steps[n].row))
  }

  function Absorb(held: Option<ObjectRecord>, incoming: Option<ObjectRecord>): Option<ObjectRecord> {
    if incoming.None? then held
    else if held.None? then incoming
    else Some(Join(held.value, incoming.value))
  }

  /** What node `i` holds after a run from empty nodes. */
  function Held(steps: seq<Step>, i: nat): Option<ObjectRecord>
    decreases |steps|
  {
    if steps == [] then None
    else
      var n := |steps| - 1;
      var held := Held(steps[..n], i);
      if steps[n].i != i then held
      else if steps[n].Write? then Some(steps[n].row)
      else Absorb(held, Held(steps[..n], steps[n].j))
  }

  /** The rows node `i` has heard of, directly or through others. */
  function Heard(steps: seq<Step>, i: nat): set<ObjectRecord>
    decreases |steps|
  {
    if steps == [] then {}
    else
      var n := |steps| - 1;
      var heard := Heard(steps[..n], i);
      if steps[n].i != i then heard
      else if steps[n].Write? then heard + {steps[n].row}
      else heard + Heard(steps[..n], steps[n].j)
  }

  function Written(steps: seq<Step>): set<ObjectRecord> {
    set k | 0 <= k < |steps| && steps[k].Write? :: steps[k].row
  }

  lemma SeparatedSubset(s: set<ObjectRecord>, t: set<ObjectRecord>)
    requires Separated(t) && s <= t
    ensures Separated(s)
  {
  }

  lemma {:induction false} HeardIsWritten(steps: seq<Step>, i: nat)
    ensures Heard(steps, i) <= Written(steps)
    decreases |steps|
  {
    if steps != [] {
      var n := |steps| - 1;
      HeardIsWritten(steps[..n], i);
      assert Written(steps[..n]) <= Written(steps);
      if steps[n].Pull? {
        HeardIsWritten(steps[..n], steps[n].j);
      }
    }
  }

  ghost predicate JoinOrNothing(s: set<ObjectRecord>, f: Option<ObjectRecord>) {
    if f.None? then s == {} else IsJoin(s, f.value)
  }

  /** Absorbing a join keeps the held row the join of everything heard. */
  lemma AbsorbJoins(s: set<ObjectRecord>, t: set<ObjectRecord>, f: Option<ObjectRecord>, g: Option<ObjectRecord>)
    requires Separated(s + t)
    requires JoinOrNothing(s, f) && JoinOrNothing(t, g)
    ensures JoinOrNothing(s + t, Absorb(f, g))
  {
    if f.None? {
      assert s + t == t;
    } else if g.None? {
      assert s + t == s;
    } else {
      JoinOfJoins(s, t, f.value, g.value);
    }
  }

  lemma OneRow(row: ObjectRecord)
    ensures JoinOrNothing({row}, Some(row))
  {
    assert row in {row} && LockSource(row, row) && ContentSource(row, row);
  }

  lemma SameRowSameJoin(s: set<ObjectRecord>, f: ObjectRecord, g: ObjectRecord)
    requires IsJoin(s, f) && SameReplicated(f, g)
    ensures IsJoin(s, g)
  {
    var u, v := Sources(s, f);
    assert LockSource(u, g) && ContentSource(v, g);
    forall a | a in s ensures Covers(g, a) {
      assert Covers(f, a);
    }
  }

  /** A write that replaces the held row leaves the join of everything heard. */
  lemma WriteJoins(s: set<ObjectRecord>, held: Option<ObjectRecord>, row: ObjectRecord)
    requires Separated(s + {row}) && JoinOrNothing(s, held) && Prevails(held, row)
    ensures JoinOrNothing(s + {row}, Some(row))
  {
    OneRow(row);
    AbsorbJoins(s, {row}, held, Some(row));
    if held.Some? {
      SameRowSameJoin(s + {row}, Join(held.value, row), row);
    }
  }

  /** Every node holds the join of the rows it has heard of. */
  lemma {:induction false} HoldsJoin(steps: seq<Step>, i: nat)
    requires ValidRun(steps) && Separated(Written(steps))
    ensures JoinOrNothing(Heard(steps, i), Held(steps, i))
    decreases |steps|
  {
    if steps != [] {
      var n := |steps| - 1;
      assert Written(steps[..n]) <= Written(steps);
      SeparatedSubset(Written(steps[..n]), Written(steps));
      HoldsJoin(steps[..n], i);
      if steps[n].i == i {
        HeardIsWritten(steps, i);
        SeparatedSubset(Heard(steps, i), Written(steps));
        if steps[n].Write? {
          WriteJoins(Heard(steps[..n], i), Held(steps[..n], i), steps[n].row);
        } else {
          HoldsJoin(steps[..n], steps[n].j);
          AbsorbJoins(Heard(steps[..n], i), Heard(steps[..n], steps[n].j), Held(steps[..n], i), Held(steps[..n], steps[n].j));
        }
      }
    }
  }

  /** Nodes that have heard of the same rows hold the same row. */
  ghost predicate Converges(steps: seq<Step>, i: nat, j: nat) {
    Heard(steps, i) == Heard(steps, j) ==>
      && (Held(steps, i).Some? <==> Held(steps, j).Some?)
      && (Held(steps, i).Some? ==> SameReplicated(Held(steps, i).value, Held(steps, j).value))
  }

  /**
   * Convergence: nodes that have heard of the same rows hold the same row, in
   * whatever order and however often those rows and their merges travelled.
   */
  lemma RowsConverge(steps: seq<Step>, i: nat, j: nat)
    requires ValidRun(steps) && Separated(Written(steps))
    ensures Converges(steps, i, j)
  {
    HoldsJoin(steps, i);
    HoldsJoin(steps, j);
    if Heard(steps, i) == Heard(steps, j) && Held(steps, i).Some? && Held(steps, j).Some? {
      HeardIsWritten(steps, i);
      SeparatedSubset(Heard(steps, i), Written(steps));
      JoinIsUnique(Heard(steps, i), Held(steps, i).value, Held(steps, j).value);
    }
  }

  // ----- exactly when rows converge -----

  /** Delivering three rows forwards and backwards. */
  ghost predicate BothWaysAgree(a: ObjectRecord, b: ObjectRecord, c: ObjectRecord) {
    SameReplicated(Join(Join(a, b), c), Join(Join(c, b), a))
  }

  /** Delivering a row twice in a row is delivering it once. */
  lemma PairBothWays(a: ObjectRecord, b: ObjectRecord)
    ensures BothWaysAgree(a, b, b) <==> Coherent(a, b)
  {
    CommutesExactly(a, b);
    if Less(a.content.blobId, b.content.blobId) {
      LessAsymmetric(a.content.blobId, b.content.blobId);
    }
  }

  /** A rival between two rows of one lineage: the order matters exactly when it does not settle. */
  lemma TripleBothWays(u: ObjectRecord, b: ObjectRecord, v: ObjectRecord)
    requires Coherent(u, v) && SameLineage(u, v) && Rivals(u, b)
    requires Less(v.content.blobId, b.content.blobId) && Less(b.content.blobId, u.content.blobId)
    ensures BothWaysAgree(b, v, u) <==> Settles(u, b, v)
  {
    LessAsymmetric(v.content.blobId, b.content.blobId);
    LessAsymmetric(b.content.blobId, u.content.blobId);
    assert Join(Join(b, v), u) == u;
  }

  lemma StepSnoc(steps: seq<Step>, s: Step)
    ensures Written(steps + [s]) == Written(steps) + if s.Write? then {s.row} else {}
    ensures ValidRun(steps + [s]) <==> ValidRun(steps) && (s.Write? ==> Prevails(Held(steps, s.i), s.row))
    ensures forall n {:trigger Held(steps + [s], n)} ::
      Held(steps + [s], n) ==
      if s.i != n then Held(steps, n) else if s.Write? then Some(s.row) else Absorb(Held(steps, n), Held(steps, s.j))
    ensures forall n {:trigger Heard(steps + [s], n)} ::
      Heard(steps + [s], n) ==
      if s.i != n then Heard(steps, n) else Heard(steps, n) + if s.Write? then {s.row} else Heard(steps, s.j)
  {
    assert (steps + [s])[..|steps|] == steps;
    forall x | x in Written(steps + [s]) ensures x in Written(steps) + if s.Write? then {s.row} else {} {
      var k :| 0 <= k < |steps| + 1 && (steps + [s])[k].Write? && (steps + [s])[k].row == x;
    }
    forall x | x in Written(steps) ensures x in Written(steps + [s]) {
      var k :| 0 <= k < |steps| && steps[k].Write? && steps[k].row == x;
      assert (steps + [s])[k] == steps[k];
    }
    if s.Write? {
      assert (steps + [s])[|steps|] == s;
    }
  }

  /** Three rows written at nodes 0, 1 and 2. */
  lemma ThreeWrites(a: ObjectRecord, b: ObjectRecord, c: ObjectRecord) returns (steps: seq<Step>)
    ensures ValidRun(steps) && Written(steps) == {a, b, c}
    ensures Held(steps, 0) == Some(a) && Held(steps, 1) == Some(b) && Held(steps, 2) == Some(c)
    ensures Heard(steps, 0) == {a} && Heard(steps, 1) == {b} && Heard(steps, 2) == {c}
    ensures forall n :: n > 2 ==> Held(steps, n) == None && Heard(steps, n) == {}
  {
    StepSnoc([], Write(0, a));
    steps := [] + [Write(0, a)];
    StepSnoc(steps, Write(1, b));
    steps := steps + [Write(1, b)];
    StepSnoc(steps, Write(2, c));
    steps := steps + [Write(2, c)];
  }

  /** A node pulls from three others in turn. */
  lemma ThreePulls(start: seq<Step>, n: nat, x: nat, y: nat, z: nat) returns (steps: seq<Step>)
    requires ValidRun(start) && n != x && n != y && n != z && Held(start, n) == None && Heard(start, n) == {}
    requires Held(start, x).Some? && Held(start, y).Some? && Held(start, z).Some?
    ensures ValidRun(steps) && Written(steps) == Written(start)
    ensures Held(steps, n) == Some(Join(Join(Held(start, x).value, Held(start, y).value), Held(start, z).value))
    ensures Heard(steps, n) == Heard(start, x) + Heard(start, y) + Heard(start, z)
    ensures forall k :: k != n ==> Held(steps, k) == Held(start, k) && Heard(steps, k) == Heard(start, k)
  {
    steps := start;
    StepSnoc(steps, Pull(n, x));
    steps := steps + [Pull(n, x)];
    StepSnoc(steps, Pull(n, y));
    steps := steps + [Pull(n, y)];
    StepSnoc(steps, Pull(n, z));
    steps := steps + [Pull(n, z)];
  }

  /** A run in which node 3 hears three rows forwards and node 4 backwards. */
  lemma BothWaysRun(a: ObjectRecord, b: ObjectRecord, c: ObjectRecord) returns (steps: seq<Step>)
    ensures ValidRun(steps) && Written(steps) == {a, b, c}
    ensures Converges(steps, 3, 4) <==> BothWaysAgree(a, b, c)
  {
    var start := ThreeWrites(a, b, c);
    var forth := ThreePulls(start, 3, 0, 1, 2);
    steps := ThreePulls(forth, 4, 2, 1, 0);
    assert Heard(steps, 3) == {a, b, c} == Heard(steps, 4);
  }

  /** Every run that writes only rows of the set converges. */
  ghost predicate AllRunsConverge(rows: set<ObjectRecord>) {
    forall steps, i, j {:trigger Converges(steps, i, j)} :: ValidRun(steps) && Written(steps) <= rows ==> Converges(steps, i, j)
  }

  /**
   * The rows of a version converge, over every run that writes them, exactly
   * when they are separated.
   */
  lemma RowsConvergeExactly(rows: set<ObjectRecord>)
    ensures AllRunsConverge(rows) <==> Separated(rows)
  {
    if Separated(rows) {
      forall steps, i, j | ValidRun(steps) && Written(steps) <= rows ensures Converges(steps, i, j) {
        SeparatedSubset(Written(steps), rows);
        RowsConverge(steps, i, j);
      }
    } else if a, b :| a in rows && b in rows && !Coherent(a, b) {
      PairBothWays(a, b);
      var steps := BothWaysRun(a, b, b);
      assert !Converges(steps, 3, 4);
    } else {
      var u, b, v :| u in rows && b in rows && v in rows && !Settles(u, b, v);
      assert Coherent(u, v);
      TripleBothWays(u, b, v);
      var steps := BothWaysRun(b, v, u);
      assert !Converges(steps, 3, 4);
    }
  }

  /**
   * A re-encryption that moves its lineage below a rival's blob id: three
   * pairwise coherent rows that do not converge.
   */
  lemma ReencryptionUnderRivalDiverges() returns (a: ObjectRecord, b: ObjectRecord, c: ObjectRecord)
    ensures Coherent(a, b) && Coherent(b, c) && Coherent(a, c) && !AllRunsConverge({a, b, c})
  {
    var o := Other("b", "k", None, 1, None, map[], "root", "STANDARD", false, false, None, None, None, None);
    a := ObjectRecord(1, "e", o, Lock(None, None, None), None, Content("m", None, None), None, true);
    b := ObjectRecord(1, "f", o, Lock(None, None, None), None, Content("h", None, None), None, true);
    c := a.(content := Content("c", Some("AES256"), Some("key")), contentAt := Some(2));
    assert Less("h", "m") && Less("c", "h");
    assert !Settles(a, b, c);
    RowsConvergeExactly({a, b, c});
  }
}
