// Reclaiming orphan blob files: the selection code, and a step system in which
// one pass races with uploads, completions and deletes.
module BlobGc {
  import opened Wrappers
  import opened Resolve

  type BlobId = string

  /** Outcome of an enumeration or a read that may fail. */
  datatype Io<+T> = Ok(value: T) | Err

  /** A sidecar; a composite blob has no file of its own, it lists its parts. */
  datatype Sidecar = Sidecar(composite: Option<seq<BlobId>>)

  type Entry = (BlobId, Sidecar)

  // ----- selection -----

  predicate Expired(mtime: Time, now: Time, grace: nat) {
    mtime <= now && now - mtime >= grace
  }

  /** The unreferenced files whose age has reached the grace period. */
  function PlanBlobGc(onDisk: seq<(BlobId, Time)>, referenced: set<BlobId>, now: Time, grace: nat): (r: seq<BlobId>)
    ensures forall b :: b in r <==> exists m :: (b, m) in onDisk && b !in referenced && m + grace <= now
  {
    if onDisk == [] then []
    else
      var (b, m) := onDisk[0];
      assert onDisk == [(b, m)] + onDisk[1..];
      (if b !in referenced && Expired(m, now, grace) then [b] else []) + PlanBlobGc(onDisk[1..], referenced, now, grace)
  }

  /** Entry `e` keeps part `p` alive: it is a composite that is itself referenced. */
  predicate Keeps(referenced: set<BlobId>, e: Entry, p: BlobId) {
    e.0 in referenced && e.1.composite.Some? && p in e.1.composite.value
  }

  ghost predicate LivePart(referenced: set<BlobId>, sidecars: seq<Entry>, p: BlobId) {
    exists e :: e in sidecars && Keeps(referenced, e, p)
  }

  lemma LivePartAppend(referenced: set<BlobId>, sidecars: seq<Entry>, e: Entry, p: BlobId)
    ensures LivePart(referenced, sidecars + [e], p) <==> LivePart(referenced, sidecars, p) || Keeps(referenced, e, p)
  {
    assert forall x :: x in sidecars + [e] <==> x in sidecars || x == e;
  }

  /** The parts collected so far, one sidecar further on. */
  lemma PartsStep(referenced: set<BlobId>, sidecars: seq<Entry>, i: nat, parts: seq<BlobId>)
    requires i < |sidecars| && forall p :: p in parts <==> LivePart(referenced, sidecars[..i], p)
    ensures var e := sidecars[i];
      var more := if e.0 in referenced && e.1.composite.Some? then parts + e.1.composite.value else parts;
      forall p :: p in more <==> LivePart(referenced, sidecars[..i + 1], p)
  {
    var e := sidecars[i];
    var more := if e.0 in referenced && e.1.composite.Some? then parts + e.1.composite.value else parts;
    assert sidecars[..i + 1] == sidecars[..i] + [e];
    forall p ensures p in more <==> LivePart(referenced, sidecars[..i + 1], p) {
      LivePartAppend(referenced, sidecars[..i], e, p);
      assert p in more <==> p in parts || Keeps(referenced, e, p);
    }
  }

  /** Adds the parts of every live composite; liveness is judged on the set as it came in. */
  method AddLiveCompositeParts(referenced: set<BlobId>, sidecars: seq<Entry>) returns (r: set<BlobId>)
    ensures forall p :: p in r <==> p in referenced || LivePart(referenced, sidecars, p)
  {
    var parts: seq<BlobId> := [];
    for i := 0 to |sidecars|
      invariant forall p :: p in parts <==> LivePart(referenced, sidecars[..i], p)
    {
      var (id, meta) := sidecars[i];
      PartsStep(referenced, sidecars, i, parts);
      if meta.composite.Some? {
        if id in referenced {
          parts := parts + meta.composite.value;
        }
      }
    }
    assert sidecars[..|sidecars|] == sidecars;
    r := referenced;
    for i := 0 to |parts|
      invariant forall p :: p in r <==> p in referenced || p in parts[..i]
    {
      assert parts[..i + 1] == parts[..i] + [parts[i]];
      r := r + {parts[i]};
    }
    assert parts[..|parts|] == parts;
  }

  /** The live set does not depend on the order in which sidecars are met. */
  lemma SidecarOrderIrrelevant(referenced: set<BlobId>, s: seq<Entry>, t: seq<Entry>, p: BlobId)
    requires forall e :: e in s <==> e in t
    ensures LivePart(referenced, s, p) <==> LivePart(referenced, t, p)
  {
  }

  /** The sidecar of an unreferenced composite keeps nothing; that of a referenced one keeps its parts. */
  lemma OnlyReferencedCompositesKeep(referenced: set<BlobId>, s: seq<Entry>, b: BlobId, parts: seq<BlobId>, t: seq<Entry>, p: BlobId)
    ensures b !in referenced ==>
      (LivePart(referenced, s + [(b, Sidecar(Some(parts)))] + t, p) <==> LivePart(referenced, s + t, p))
    ensures b in referenced && p in parts ==> LivePart(referenced, s + [(b, Sidecar(Some(parts)))] + t, p)
  {
    var e := (b, Sidecar(Some(parts)));
    assert e in s + [e] + t;
    assert forall x :: x in s + [e] + t <==> x in s + t || x == e;
  }

  /** The sidecars that exist, in listing order; `None` entries were gone when read. */
  function Present(ids: seq<BlobId>, results: seq<Io<Option<Sidecar>>>): seq<Entry>
    requires |ids| == |results|
  {
    if ids == [] then []
    else
      Present(ids[..|ids| - 1], results[..|ids| - 1])
      + if results[|ids| - 1].Ok? && results[|ids| - 1].value.Some? then [(ids[|ids| - 1], results[|ids| - 1].value.value)] else []
  }

  /** Everything live, or an error: never a partial set. */
  method ReferencedBlobIds(refs: Io<seq<BlobId>>, ids: Io<seq<BlobId>>, results: seq<Io<Option<Sidecar>>>)
    returns (r: Io<set<BlobId>>)
    requires ids.Ok? ==> |results| == |ids.value|
    ensures r.Ok? <==> refs.Ok? && ids.Ok? && forall i :: 0 <= i < |ids.value| ==> results[i].Ok?
    ensures r.Ok? ==> forall p :: p in r.value <==>
      p in refs.value || LivePart((set b | b in refs.value), Present(ids.value, results), p)
  {
    if refs.Err? { return Err; }
    var referenced := set b | b in refs.value;
    if ids.Err? { return Err; }
    var sidecars: seq<Entry> := [];
    for i := 0 to |ids.value|
      invariant forall j :: 0 <= j < i ==> results[j].Ok?
      invariant sidecars == Present(ids.value[..i], results[..i])
    {
      if results[i].Err? { return Err; }
      assert ids.value[..i + 1][..i] == ids.value[..i] && results[..i + 1][..i] == results[..i];
      if results[i].value.Some? {
        sidecars := sidecars + [(ids.value[i], results[i].value.value)];
      }
    }
    assert ids.value[..|ids.value|] == ids.value && results[..|ids.value|] == results;
    var all := AddLiveCompositeParts(referenced, sidecars);
    r := Ok(all);
  }

  /** How many of the candidates can be deleted. */
  function Succeeding(ids: seq<BlobId>, succeeds: BlobId -> bool): nat {
    if ids == [] then 0 else Succeeding(ids[..|ids| - 1], succeeds) + if succeeds(ids[|ids| - 1]) then 1 else 0
  }

  /** Deletes the candidates one by one; a failed delete is counted and skipped. */
  method ReclaimBlobs(candidates: Io<seq<BlobId>>, succeeds: BlobId -> bool, disk: set<BlobId>)
    returns (reclaimed: nat, failed: nat, left: set<BlobId>)
    ensures candidates.Err? ==> left == disk && reclaimed == 0 && failed == 0
    ensures candidates.Ok? ==> left == disk - set b | b in candidates.value && succeeds(b)
    ensures candidates.Ok? ==> reclaimed == Succeeding(candidates.value, succeeds) && reclaimed + failed == |candidates.value|
  {
    reclaimed, failed, left := 0, 0, disk;
    if candidates.Err? { return; }
    var ids := candidates.value;
    for i := 0 to |ids|
      invariant reclaimed == Succeeding(ids[..i], succeeds) && reclaimed + failed == i
      invariant left == disk - set b | b in ids[..i] && succeeds(b)
    {
      assert ids[..i + 1] == ids[..i] + [ids[i]];
      if succeeds(ids[i]) {
        left := left - {ids[i]};
        reclaimed := reclaimed + 1;
      } else {
        failed := failed + 1;
      }
    }
    assert ids[..|ids|] == ids;
  }

  // ----- one pass against concurrent uploads -----

  /** Rows, composite sidecars and files; `minted` are the ids ever given to a file. */
  datatype World = World(clock: Time, rows: set<BlobId>, composites: map<BlobId, seq<BlobId>>,
                         disk: map<BlobId, Time>, minted: set<BlobId>)

  /** Where the pass is; `kept` are the ids referenced without a break since `since`. */
  datatype Pass =
    | Idle
    | Scanned(since: Time, refs: set<BlobId>, kept: set<BlobId>)
    | Reading(since: Time, refs: set<BlobId>, kept: set<BlobId>, todo: set<BlobId>, read: seq<Entry>)
    | Listed(since: Time, refs: set<BlobId>, kept: set<BlobId>, referenced: set<BlobId>, listing: seq<(BlobId, Time)>)
    | Deleting(since: Time, refs: set<BlobId>, kept: set<BlobId>, referenced: set<BlobId>, victims: set<BlobId>)

  datatype Machine = Machine(world: World, pass: Pass)

  /** Everything that can happen, each at an instant of its own. */
  datatype Event =
    | WriteBlob(b: BlobId)                                  // a new file appears
    | CommitRow(b: BlobId)                                  // a row starts to reference it
    | WriteComposite(b: BlobId, parts: seq<BlobId>)         // a composite sidecar is written
    | CommitComposite(b: BlobId, dropped: set<BlobId>)      // the upload completes; its part rows go
    | RemoveRow(b: BlobId)
    | RemoveComposite(b: BlobId)
    | ReadRefs                                              // the pass reads the references first
    | ListSidecars
    | ReadSidecar(b: BlobId)
    | ListDisk(listing: seq<(BlobId, Time)>, referenced: set<BlobId>)
    | Select
    | DeleteFile(b: BlobId)
    | DeleteFails(b: BlobId)
    | Abort                                                 // some enumeration failed

  predicate Live(w: World, b: BlobId) {
    b in w.rows || exists c :: c in w.rows && c in w.composites && b in w.composites[c]
  }

  /** File `b` was written no longer than `delay` ago. */
  predicate Recent(w: World, b: BlobId, now: Time, delay: nat) {
    b in w.disk && now <= w.disk[b] + delay
  }

  ghost predicate Lists(listing: seq<(BlobId, Time)>, disk: map<BlobId, Time>) {
    forall b, t :: (b, t) in listing <==> b in disk && disk[b] == t
  }

  /** The grace period, the longest delay from a file to its row, and the longest scan. */
  datatype Timing = Timing(grace: nat, delay: nat, window: nat)

  /** A scan and an upload's delay together fit in the grace period. */
  predicate Fits(t: Timing) {
    t.window + t.delay <= t.grace
  }

  /**
   * When an event may happen.  Uploads: a row is committed at most `delay`
   * after its file was written; a composite is committed over parts that have
   * rows or are that recent; a referenced composite is not rewritten.  The
   * pass: the selection happens at most `window` after the references were read.
   */
  ghost predicate Enabled(m: Machine, e: Event, at: Time, t: Timing) {
    var w, p := m.world, m.pass;
    && at > w.clock
    && match e
       case WriteBlob(b) => b !in w.minted && b !in w.composites
       case CommitRow(b) => Recent(w, b, at, t.delay)
       case WriteComposite(b, parts) => b !in w.rows && b !in w.minted
       case CommitComposite(b, dropped) =>
         && b in w.composites && b !in w.rows
         && forall x :: x in w.composites[b] ==> x in w.rows || Recent(w, x, at, t.delay)
       case RemoveRow(b) => true
       case RemoveComposite(b) => !Live(w, b)
       case ReadRefs => p.Idle?
       case ListSidecars => p.Scanned?
       case ReadSidecar(b) => p.Reading? && b in p.todo
       case ListDisk(listing, referenced) =>
         && p.Reading? && p.todo == {} && Lists(listing, w.disk)
         && forall x :: x in referenced <==> x in p.refs || LivePart(p.refs, p.read, x)
       case Select => p.Listed? && at - p.since <= t.window
       case DeleteFile(b) => p.Deleting? && b in p.victims
       case DeleteFails(b) => p.Deleting? && b in p.victims
       case Abort => true
  }

  /** What users do and what fails is not held back by a pass: only the disk, the rows and the clock decide. */
  lemma UsersAreFree(m: Machine, at: Time, t: Timing, b: BlobId)
    requires at > m.world.clock
    ensures Enabled(m, RemoveRow(b), at, t) && Enabled(m, Abort, at, t)
    ensures b !in m.world.minted && b !in m.world.composites ==>
      Enabled(m, WriteBlob(b), at, t) && forall parts :: Enabled(m, WriteComposite(b, parts), at, t) <==> b !in m.world.rows
    ensures b in m.world.disk && at <= m.world.disk[b] + t.delay ==> Enabled(m, CommitRow(b), at, t)
    ensures b in m.world.composites && b !in m.world.rows && (forall x :: x in m.world.composites[b] ==> x in m.world.rows) ==>
      forall dropped :: Enabled(m, CommitComposite(b, dropped), at, t)
  {
  }

  ghost function Forget(p: Pass, gone: set<BlobId>): Pass {
    if p.Idle? then p else p.(kept := p.kept - gone)
  }

  ghost function After(m: Machine, e: Event, at: Time, t: Timing): Machine
    requires Enabled(m, e, at, t)
  {
    var w, p := m.world.(clock := at), m.pass;
    match e
    case WriteBlob(b) => Machine(w.(disk := w.disk[b := at], minted := w.minted + {b}), p)
    case CommitRow(b) => Machine(w.(rows := w.rows + {b}), p)
    case WriteComposite(b, parts) => Machine(w.(composites := w.composites[b := parts]), p)
    case CommitComposite(b, dropped) => Machine(w.(rows := w.rows - dropped + {b}), Forget(p, dropped))
    case RemoveRow(b) => Machine(w.(rows := w.rows - {b}), Forget(p, {b}))
    case RemoveComposite(b) => Machine(w.(composites := w.composites - {b}), p)
    case ReadRefs => Machine(w, Scanned(at, w.rows, w.rows))
    case ListSidecars => Machine(w, Reading(p.since, p.refs, p.kept, w.composites.Keys, []))
    case ReadSidecar(b) =>
      Machine(w, p.(
        todo := p.todo - {b},
        read := if b in w.composites then p.read + [(b, Sidecar(Some(w.composites[b])))] else p.read))
    case ListDisk(listing, referenced) => Machine(w, Listed(p.since, p.refs, p.kept, referenced, listing))
    case Select =>
      Machine(w, Deleting(p.since, p.refs, p.kept, p.referenced,
                          set b | b in PlanBlobGc(p.listing, p.referenced, at, t.grace)))
    case DeleteFile(b) => Machine(w.(disk := w.disk - {b}), p.(victims := p.victims - {b}))
    case DeleteFails(b) => Machine(w, p.(victims := p.victims - {b}))
    case Abort => Machine(w, Idle)
  }

  /** Files have minted ids, and no composite id is one of them. */
  ghost predicate Tidy(w: World) {
    && w.disk.Keys <= w.minted && w.minted !! w.composites.Keys
    && forall b :: b in w.disk ==> w.disk[b] <= w.clock
  }

  /** Every live blob is there: as a file, or as a composite made of files. */
  ghost predicate NothingLost(w: World) {
    forall b {:trigger Live(w, b)} :: Live(w, b) ==> b in w.disk || b in w.composites
  }

  /** Written after `since - delay`: too young to be selected. */
  predicate Young(w: World, b: BlobId, since: Time, delay: nat) {
    b in w.disk && since < w.disk[b] + delay
  }

  /** `b` was referenced when the pass started, or is too young to be selected. */
  predicate Shielded(w: World, p: Pass, b: BlobId, delay: nat)
    requires !p.Idle?
  {
    b in p.refs || Young(w, b, p.since, delay)
  }

  /** What the pass may count on about files that rows or new composites came to need. */
  ghost predicate Guarded(w: World, p: Pass, delay: nat)
    requires !p.Idle?
  {
    && p.kept <= w.rows * p.refs && p.since <= w.clock
    && (forall b {:trigger Shielded(w, p, b, delay)} :: b in w.rows && b in w.disk ==> Shielded(w, p, b, delay))
    && (forall c, b {:trigger PartOf(w, c, b), Shielded(w, p, b, delay)} ::
          c in w.rows && c !in p.kept && PartOf(w, c, b) && b in w.disk ==> Shielded(w, p, b, delay))
  }

  predicate PartOf(w: World, c: BlobId, b: BlobId) {
    c in w.composites && b in w.composites[c]
  }

  /** The parts of the composites kept so far have been seen, or will be. */
  ghost predicate Seen(w: World, p: Pass)
    requires !p.Idle?
  {
    match p
    case Scanned(_, _, _) => true
    case Reading(_, refs, kept, todo, read) =>
      forall c, b {:trigger PartOf(w, c, b)} :: c in kept && c !in todo && PartOf(w, c, b) ==> LivePart(refs, read, b)
    case Listed(_, refs, kept, referenced, listing) =>
      && refs <= referenced
      && (forall c, b {:trigger PartOf(w, c, b)} :: c in kept && PartOf(w, c, b) ==> b in referenced)
      && (forall b, t :: (b, t) in listing ==> b in w.minted && (b in w.disk ==> w.disk[b] == t))
    case Deleting(_, refs, kept, referenced, victims) =>
      && refs <= referenced
      && (forall c, b {:trigger PartOf(w, c, b)} :: c in kept && PartOf(w, c, b) ==> b in referenced)
  }

  /** The files chosen for deletion were neither referenced nor young. */
  ghost predicate Harmless(w: World, p: Pass, delay: nat) {
    p.Deleting? ==> forall b :: b in p.victims ==>
      b !in p.referenced && b in w.minted && !Young(w, b, p.since, delay)
  }

  ghost predicate Inv(m: Machine, delay: nat) {
    && Tidy(m.world) && NothingLost(m.world)
    && (!m.pass.Idle? ==> Guarded(m.world, m.pass, delay) && Seen(m.world, m.pass) && Harmless(m.world, m.pass, delay))
  }

  /** The heart of the matter: a chosen file is not live, whatever happened since. */
  lemma VictimNotLive(m: Machine, b: BlobId, delay: nat)
    requires Inv(m, delay) && m.pass.Deleting? && b in m.pass.victims && b in m.world.disk
    ensures !Live(m.world, b)
  {
    var w, p := m.world, m.pass;
    assert !Shielded(w, p, b, delay);
    forall c | c in w.rows ensures !PartOf(w, c, b) {
    }
  }

  lemma TidyKept(m: Machine, e: Event, at: Time, t: Timing)
    requires Inv(m, t.delay) && Enabled(m, e, at, t)
    ensures Tidy(After(m, e, at, t).world)
  {
  }

  lemma NothingLostKept(m: Machine, e: Event, at: Time, t: Timing)
    requires Inv(m, t.delay) && Enabled(m, e, at, t)
    ensures NothingLost(After(m, e, at, t).world)
  {
    var w, w' := m.world, After(m, e, at, t).world;
    forall b | Live(w', b) ensures b in w'.disk || b in w'.composites {
      if e.DeleteFile? && b == e.b && b in w.disk {
        VictimNotLive(m, b, t.delay);
      }
      if Live(w, b) {
        assert b in w.disk || b in w.composites;
      }
    }
  }

  /** A file recent at `at` is young with respect to any earlier instant. */
  lemma RecentIsYoung(w: World, b: BlobId, at: Time, delay: nat, since: Time)
    requires Recent(w, b, at, delay) && since < at
    ensures Young(w, b, since, delay)
  {
  }

  lemma GuardedKept(m: Machine, e: Event, at: Time, t: Timing)
    requires Inv(m, t.delay) && Enabled(m, e, at, t) && !After(m, e, at, t).pass.Idle?
    ensures var m' := After(m, e, at, t); Guarded(m'.world, m'.pass, t.delay)
  {
    var w, p, m' := m.world, m.pass, After(m, e, at, t);
    var w', p' := m'.world, m'.pass;
    forall b | b in w'.rows && b in w'.disk ensures Shielded(w', p', b, t.delay) {
      if !p.Idle? && b in w.rows && b in w.disk {
        assert Shielded(w, p, b, t.delay);
      } else if e.CommitRow? {
        RecentIsYoung(w, b, at, t.delay, p'.since);
      }
    }
    forall c, b | c in w'.rows && c !in p'.kept && PartOf(w', c, b) && b in w'.disk ensures Shielded(w', p', b, t.delay) {
      if e.CommitComposite? && c == e.b {
        if b in w.rows {
          assert Shielded(w, p, b, t.delay);
        } else {
          RecentIsYoung(w, b, at, t.delay, p'.since);
        }
      } else if !p.Idle? && b in w.disk {
        assert c in w.rows && PartOf(w, c, b) ==> Shielded(w, p, b, t.delay);
      }
    }
  }

  lemma SeenKept(m: Machine, e: Event, at: Time, t: Timing)
    requires Inv(m, t.delay) && Enabled(m, e, at, t) && !After(m, e, at, t).pass.Idle?
    ensures var m' := After(m, e, at, t); Seen(m'.world, m'.pass)
  {
    var w, p, m' := m.world, m.pass, After(m, e, at, t);
    var w', p' := m'.world, m'.pass;
    forall c, b | c in p'.kept && PartOf(w', c, b) ensures e.ReadRefs? || (c in p.kept && PartOf(w, c, b)) {
    }
    if p'.Reading? {
      forall c, b | c in p'.kept && c !in p'.todo && PartOf(w', c, b) ensures LivePart(p'.refs, p'.read, b) {
        if e.ReadSidecar? {
          var entry := (e.b, Sidecar(Some(w.composites[c])));
          if c == e.b {
            LivePartAppend(p.refs, p.read, entry, b);
          } else if e.b in w.composites {
            LivePartAppend(p.refs, p.read, (e.b, Sidecar(Some(w.composites[e.b]))), b);
          }
        }
      }
    }
  }

  lemma HarmlessKept(m: Machine, e: Event, at: Time, t: Timing)
    requires Fits(t) && Inv(m, t.delay) && Enabled(m, e, at, t) && !After(m, e, at, t).pass.Idle?
    ensures var m' := After(m, e, at, t); Harmless(m'.world, m'.pass, t.delay)
  {
    var w, p, m' := m.world, m.pass, After(m, e, at, t);
    var w', p' := m'.world, m'.pass;
    if e.Select? {
      forall b | b in p'.victims
        ensures b !in p'.referenced && b in w'.minted && !Young(w', b, p'.since, t.delay)
      {
        var mt :| (b, mt) in p.listing && b !in p.referenced && Expired(mt, at, t.grace);
      }
    }
  }

  lemma InvKept(m: Machine, e: Event, at: Time, t: Timing)
    requires Fits(t) && Inv(m, t.delay) && Enabled(m, e, at, t)
    ensures Inv(After(m, e, at, t), t.delay)
  {
    TidyKept(m, e, at, t);
    NothingLostKept(m, e, at, t);
    if !After(m, e, at, t).pass.Idle? {
      GuardedKept(m, e, at, t);
      SeenKept(m, e, at, t);
      HarmlessKept(m, e, at, t);
    }
  }

  // ----- runs -----

  ghost predicate ValidRun(m: Machine, run: seq<(Event, Time)>, t: Timing)
    decreases |run|
  {
    run == [] ||
      (Enabled(m, run[0].0, run[0].1, t) &&
       ValidRun(After(m, run[0].0, run[0].1, t), run[1..], t))
  }

  ghost function EndOf(m: Machine, run: seq<(Event, Time)>, t: Timing): Machine
    requires ValidRun(m, run, t)
    decreases |run|
  {
    if run == [] then m
    else EndOf(After(m, run[0].0, run[0].1, t), run[1..], t)
  }

  /**
   * Reclaim safety: from any tidy start with every live blob present, no
   * interleaving of uploads, completions, deletes and passes, with any
   * enumeration or delete failing, ever leaves a live blob without its file.
   */
  lemma {:induction false} ReclaimIsSafe(m: Machine, run: seq<(Event, Time)>, t: Timing)
    requires Fits(t) && Inv(m, t.delay) && ValidRun(m, run, t)
    ensures NothingLost(EndOf(m, run, t).world)
    decreases |run|
  {
    if run != [] {
      InvKept(m, run[0].0, run[0].1, t);
      ReclaimIsSafe(After(m, run[0].0, run[0].1, t), run[1..], t);
    }
  }

  /** Nothing stored, no pass under way. */
  function Empty(clock: Time): Machine {
    Machine(World(clock, {}, map[], map[], {}), Idle)
  }

  /** The start of a system. */
  lemma EmptyStart(clock: Time, delay: nat)
    ensures Inv(Empty(clock), delay)
  {
  }

  /** A run from its first event on. */
  lemma RunCons(m: Machine, ev: Event, at: Time, rest: seq<(Event, Time)>, t: Timing)
    requires Enabled(m, ev, at, t) && ValidRun(After(m, ev, at, t), rest, t)
    ensures ValidRun(m, [(ev, at)] + rest, t)
    ensures EndOf(m, [(ev, at)] + rest, t) == EndOf(After(m, ev, at, t), rest, t)
  {
    assert ([(ev, at)] + rest)[1..] == rest;
  }

  /** Two events of a run. */
  lemma RunTwo(m: Machine, e: Event, x: Time, f: Event, y: Time, rest: seq<(Event, Time)>, t: Timing)
    requires Enabled(m, e, x, t) && Enabled(After(m, e, x, t), f, y, t)
    requires ValidRun(After(After(m, e, x, t), f, y, t), rest, t)
    ensures ValidRun(m, [(e, x), (f, y)] + rest, t)
    ensures EndOf(m, [(e, x), (f, y)] + rest, t) == EndOf(After(After(m, e, x, t), f, y, t), rest, t)
  {
    RunCons(After(m, e, x, t), f, y, rest, t);
    RunCons(m, e, x, [(f, y)] + rest, t);
    assert [(e, x), (f, y)] + rest == [(e, x)] + ([(f, y)] + rest);
  }

  /** A blob written, not referenced when the pass reads the references, committed just in time. */
  lemma LateCommit(b: BlobId, t: Timing) returns (m: Machine, run: seq<(Event, Time)>)
    requires t.delay >= 2
    ensures ValidRun(Empty(0), run, t) && m == EndOf(Empty(0), run, t)
    ensures m == Machine(World(t.delay + 1, {b}, map[], map[b := 1], {b}), Scanned(t.delay, {}, {}))
  {
    var m1 := After(Empty(0), WriteBlob(b), 1, t);
    var m2 := After(m1, ReadRefs, t.delay, t);
    m := After(m2, CommitRow(b), t.delay + 1, t);
    RunCons(m2, CommitRow(b), t.delay + 1, [], t);
    RunTwo(Empty(0), WriteBlob(b), 1, ReadRefs, t.delay, [(CommitRow(b), t.delay + 1)] + [], t);
    run := [(WriteBlob(b), 1), (ReadRefs, t.delay)] + ([(CommitRow(b), t.delay + 1)] + []);
  }

  /** The pass goes on to list the one file there is. */
  lemma ListsTheFile(b: BlobId, m: Machine, t: Timing) returns (end: Machine, run: seq<(Event, Time)>)
    requires m == Machine(World(t.delay + 1, {b}, map[], map[b := 1], {b}), Scanned(t.delay, {}, {}))
    ensures ValidRun(m, run, t) && end == EndOf(m, run, t)
    ensures end == Machine(World(t.delay + 3, {b}, map[], map[b := 1], {b}), Listed(t.delay, {}, {}, {}, [(b, 1)]))
  {
    var m1 := After(m, ListSidecars, t.delay + 2, t);
    assert m1.pass == Reading(t.delay, {}, {}, {}, []);
    var list := ListDisk([(b, 1)], {});
    assert Enabled(m1, list, t.delay + 3, t);
    end := After(m1, list, t.delay + 3, t);
    RunTwo(m, ListSidecars, t.delay + 2, list, t.delay + 3, [], t);
    run := [(ListSidecars, t.delay + 2), (list, t.delay + 3)] + [];
  }

  /** A selection later than `grace - delay` after the references picks the file, and it is deleted. */
  lemma SlowScan(b: BlobId, m: Machine, t: Timing) returns (end: Machine, run: seq<(Event, Time)>)
    requires t.window >= 4 && !Fits(t)
    requires m == Machine(World(t.delay + 3, {b}, map[], map[b := 1], {b}), Listed(t.delay, {}, {}, {}, [(b, 1)]))
    ensures ValidRun(m, run, t) && end == EndOf(m, run, t) && b in end.world.rows && b !in end.world.disk && b !in end.world.composites
  {
    var at := t.delay + t.window;
    var m1 := After(m, Select, at, t);
    assert (b, 1) in m.pass.listing && Expired(1, at, t.grace);
    assert b in m1.pass.victims;
    end := After(m1, DeleteFile(b), at + 1, t);
    RunTwo(m, Select, at, DeleteFile(b), at + 1, [], t);
    run := [(Select, at), (DeleteFile(b), at + 1)] + [];
  }

  lemma {:induction false} RunAppend(m: Machine, a: seq<(Event, Time)>, b: seq<(Event, Time)>, t: Timing)
    requires ValidRun(m, a, t) && ValidRun(EndOf(m, a, t), b, t)
    ensures ValidRun(m, a + b, t) && EndOf(m, a + b, t) == EndOf(EndOf(m, a, t), b, t)
    decreases |a|
  {
    if a == [] {
      assert a + b == b;
    } else {
      assert (a + b)[1..] == a[1..] + b;
      RunAppend(After(m, a[0].0, a[0].1, t), a[1..], b, t);
    }
  }

  ghost predicate SafeRun(run: seq<(Event, Time)>, t: Timing) {
    ValidRun(Empty(0), run, t) ==> NothingLost(EndOf(Empty(0), run, t).world)
  }

  /**
   * The bound is exact: every run from the start is safe exactly when a scan and
   * an upload's delay fit in the grace period.  (A blob needs two instants to be
   * missed by the references and still be committed, a scan four.)
   */
  lemma SafeExactly(t: Timing)
    requires t.delay >= 2 && t.window >= 4
    ensures (forall run :: SafeRun(run, t)) <==> Fits(t)
  {
    if Fits(t) {
      EmptyStart(0, t.delay);
      forall run ensures SafeRun(run, t) {
        if ValidRun(Empty(0), run, t) {
          ReclaimIsSafe(Empty(0), run, t);
        }
      }
    } else {
      var b := "b";
      var m, first := LateCommit(b, t);
      var listed, second := ListsTheFile(b, m, t);
      var end, third := SlowScan(b, listed, t);
      RunAppend(m, second, third, t);
      RunAppend(Empty(0), first, second + third, t);
      assert Live(end.world, b);
      assert !SafeRun(first + (second + third), t);
    }
  }
}
