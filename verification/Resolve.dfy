// Last-writer-wins resolution of one control-plane key.
//
// A node knows at most two things about a key: when its live row was last
// written and when it was deleted.  `ResolveKey` turns the two nodes' marks
// into local actions; the lemmas show that those actions compute the join of a
// total order on events in which a write beats a delete of the same instant.
module Resolve {
  import opened Wrappers

  /** Instants, counted from the earliest representable one. */
  type Time = nat

  const MIN_UTC: Time := 0

  datatype KeyResolution = KeyResolution(
    alive: bool,
    upsertFromRemote: bool,
    deleteLocal: bool,
    adoptTombstoneAt: Option<Time>,
    clearTombstone: bool)

  /** An absent instant comes before every present one. */
  predicate Before(a: Option<Time>, b: Option<Time>) {
    b.Some? && (a.None? || a.value < b.value)
  }

  function Newest(a: Option<Time>, b: Option<Time>): Option<Time> {
    if Before(a, b) then b else a
  }

  function ResolveKey(localAlive: Option<Time>, localDead: Option<Time>,
                      remoteAlive: Option<Time>, remoteDead: Option<Time>): KeyResolution
  {
    var globalAlive := Newest(localAlive, remoteAlive);
    var globalDead := Newest(localDead, remoteDead);
    if Before(globalAlive, globalDead) then
      KeyResolution(
        false, false, localAlive.Some?,
        if Before(localDead, globalDead) then globalDead else None,
        false)
    else
      KeyResolution(
        localAlive.Some? || remoteAlive.Some?,
        Before(localAlive, remoteAlive),
        false, None,
        localDead.Some?)
  }

  /** What one node records about one key. */
  datatype Mark = Mark(alive: Option<Time>, dead: Option<Time>)

  function Resolved(l: Mark, r: Mark): KeyResolution {
    ResolveKey(l.alive, l.dead, r.alive, r.dead)
  }

  /** The local mark once the resolution's actions are carried out. */
  function Outcome(l: Mark, r: Mark): Mark {
    var res := Resolved(l, r);
    Mark(
      if res.deleteLocal then None else if res.upsertFromRemote then r.alive else l.alive,
      if res.adoptTombstoneAt.Some? then res.adoptTombstoneAt else if res.clearTombstone then None else l.dead)
  }

  /** Position of an event in time; a write sorts above a delete of the same instant. */
  function WriteLevel(t: Option<Time>): int {
    if t.Some? then 2 * t.value + 1 else -1
  }

  function DeleteLevel(t: Option<Time>): int {
    if t.Some? then 2 * t.value else -1
  }

  /** The newest event a mark knows of, -1 when it knows of none. */
  function Level(m: Mark): int {
    if WriteLevel(m.alive) > DeleteLevel(m.dead) then WriteLevel(m.alive) else DeleteLevel(m.dead)
  }

  /** A mark that shows at most one of a live row and a tombstone. */
  predicate Canonical(m: Mark) {
    m.alive.None? || m.dead.None?
  }

  function Higher(a: int, b: int): int {
    if a >= b then a else b
  }

  /** The actions compute the join, and leave a canonical mark behind. */
  lemma OutcomeIsJoin(l: Mark, r: Mark)
    ensures Level(Outcome(l, r)) == Higher(Level(l), Level(r))
    ensures Canonical(Outcome(l, r))
    ensures Resolved(l, r).alive <==> Outcome(l, r).alive.Some?
  {
  }

  /** A canonical mark is determined by its newest event. */
  lemma LevelDeterminesMark(m: Mark, n: Mark)
    requires Canonical(m) && Canonical(n) && Level(m) == Level(n)
    ensures m == n
  {
  }

  /** After the actions, resolving against the same peer asks for nothing more. */
  lemma OutcomeIsFixpoint(l: Mark, r: Mark)
    ensures
      var again := Resolved(Outcome(l, r), r);
      && !again.upsertFromRemote && !again.deleteLocal
      && again.adoptTombstoneAt.None? && !again.clearTombstone
  {
  }
}
