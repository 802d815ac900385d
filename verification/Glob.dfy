// The backtracking glob matcher of the policy engine.
//
// `Matches` is the declarative reading of a pattern: `?` stands for one
// character, `*` for any run of characters.  `Eager` is what the matcher
// decides: it differs from `Matches` in one place only, a pattern `*` that
// faces a text character `*` consumes exactly that character.  The method is
// proved equal to `Eager` on every input, and `Eager` is proved equal to
// `Matches` for all patterns exactly on the texts that hold no `*`.
module Glob {

  predicate AllStars(p: string) {
    forall i :: 0 <= i < |p| ==> p[i] == '*'
  }

  /** The declarative relation: some split of the text fits the pattern. */
  predicate Matches(p: string, t: string)
    decreases |p| + |t|
  {
    if p == [] then t == []
    else if p[0] == '*' then Matches(p[1..], t) || (t != [] && Matches(p, t[1..]))
    else t != [] && (p[0] == '?' || p[0] == t[0]) && Matches(p[1..], t[1..])
  }

  /** A single pattern character accepts a text character on its own. */
  predicate Accepts(p: char, t: char) {
    p == '?' || p == t
  }

  /** What the matcher decides: a one-character match is preferred to a star. */
  predicate Eager(p: string, t: string)
    decreases |p| + |t|, 0
  {
    if t == [] then AllStars(p)
    else if p == [] then false
    else if Accepts(p[0], t[0]) then Eager(p[1..], t[1..])
    else p[0] == '*' && Starred(p[1..], t)
  }

  /** `Eager` behind a recorded star: some suffix of the text fits `p`. */
  predicate Starred(p: string, t: string)
    decreases |p| + |t|, 1
  {
    Eager(p, t) || (t != [] && Starred(p, t[1..]))
  }

  // ----- the matcher remembers only the last star -----

  /** `seg` took the first `|seg|` characters of `t` one by one. */
  predicate Took(seg: string, t: string) {
    |seg| <= |t| && forall i :: 0 <= i < |seg| ==> Accepts(seg[i], t[i])
  }

  lemma {:induction false} StarredAt(p: string, t: string, n: nat)
    requires n <= |t| && Starred(p, t[n..])
    ensures Starred(p, t)
    decreases n
  {
    if n > 0 {
      assert t[n - 1..][1..] == t[n..];
      StarredAt(p, t, n - 1);
    } else {
      assert t[0..] == t;
    }
  }

  lemma {:induction false} StarredWitness(p: string, t: string) returns (n: nat)
    requires Starred(p, t)
    ensures n <= |t| && Eager(p, t[n..])
    decreases |t|
  {
    if Eager(p, t) {
      n := 0;
      assert t[0..] == t;
    } else {
      var m := StarredWitness(p, t[1..]);
      assert t[1..][m..] == t[m + 1..];
      n := m + 1;
    }
  }

  /**
   * If `seg` was taken character by character from position `a`, then however
   * much later an attempt starts, whatever follows `seg` is reached no earlier
   * than `a + |seg|`: giving up the earlier star loses no match.
   */
  lemma {:induction false} NoEarlierArrival(seg: string, rest: string, t: string, a: nat, b: nat) returns (m: nat)
    requires a <= b <= |t| && Took(seg, t[a..])
    requires Eager(seg + rest, t[b..])
    ensures a + |seg| <= m <= |t| && Eager(rest, t[m..])
    decreases |seg|
  {
    var u := t[b..];
    if seg == [] {
      assert seg + rest == rest;
      m := b;
    } else if u == [] {
      assert forall i :: 0 <= i < |rest| ==> rest[i] == (seg + rest)[|seg| + i];
      assert t[|t|..] == [];
      m := |t|;
    } else {
      assert (seg + rest)[0] == seg[0] && (seg + rest)[1..] == seg[1..] + rest;
      assert Accepts(seg[0], t[a..][0]);
      assert Took(seg[1..], t[a + 1..]) by {
        assert forall i :: 0 <= i < |seg| - 1 ==> seg[1..][i] == seg[i + 1] && t[a + 1..][i] == t[a..][i + 1];
      }
      assert u[1..] == t[b + 1..];
      if Accepts(seg[0], u[0]) {
        m := NoEarlierArrival(seg[1..], rest, t, a + 1, b + 1);
      } else {
        var n := StarredWitness(seg[1..] + rest, u);
        assert u[n..] == t[b + n..];
        assert seg[0] == '*' && b > a;
        m := NoEarlierArrival(seg[1..], rest, t, a + 1, b + n);
      }
    }
  }

  /** Everything an older star could still reach is reachable from here. */
  lemma {:induction false} OlderStarSubsumed(seg: string, rest: string, t: string, a: nat) returns (m: nat)
    requires a + |seg| <= |t| && Took(seg, t[a..])
    requires a < |t| && Starred(seg + rest, t[a + 1..])
    ensures a + |seg| <= m <= |t| && Eager(rest, t[m..])
  {
    var n := StarredWitness(seg + rest, t[a + 1..]);
    assert t[a + 1..][n..] == t[a + 1 + n..];
    m := NoEarlierArrival(seg, rest, t, a, a + 1 + n);
  }

  /** What is left to decide, given the last recorded star (`starPi < 0`: none). */
  ghost predicate Pending(pat: string, txt: string, pi: nat, ti: nat, starPi: int, starTi: nat)
    requires pi <= |pat| && ti <= |txt| && starTi <= |txt| && starPi < |pat|
  {
    Eager(pat[pi..], txt[ti..])
    || (starPi >= 0 && starTi < |txt| && Starred(pat[starPi + 1..], txt[starTi + 1..]))
  }

  /** The characters since the last star were taken one by one. */
  predicate SinceStar(pat: string, txt: string, pi: nat, ti: nat, starPi: int, starTi: nat)
    requires pi <= |pat| && starTi <= ti <= |txt| && -1 <= starPi < pi
  {
    starPi >= 0 ==> ti - starTi == pi - (starPi + 1) && Took(pat[starPi + 1..pi], txt[starTi..])
  }

  /** Recording a newer star replaces everything the older one could still do. */
  lemma NewStarSuffices(pat: string, txt: string, pi: nat, ti: nat, starPi: int, starTi: nat)
    requires pi < |pat| && starTi <= ti < |txt| && -1 <= starPi < pi
    requires pat[pi] == '*' && !Accepts(pat[pi], txt[ti]) && SinceStar(pat, txt, pi, ti, starPi, starTi)
    ensures Pending(pat, txt, pi, ti, starPi, starTi) == Pending(pat, txt, pi + 1, ti, pi, ti)
  {
    var q := pat[pi + 1..];
    assert pat[pi..][1..] == q && txt[ti..][1..] == txt[ti + 1..];
    assert Eager(pat[pi..], txt[ti..]) == Starred(q, txt[ti..]);
    assert Starred(q, txt[ti..]) == (Eager(q, txt[ti..]) || Starred(q, txt[ti..][1..]));
    if starPi >= 0 && Starred(pat[starPi + 1..], txt[starTi + 1..]) {
      var seg := pat[starPi + 1..pi];
      assert seg + pat[pi..] == pat[starPi + 1..];
      var m := OlderStarSubsumed(seg, pat[pi..], txt, starTi);
      if m < |txt| && Accepts('*', txt[m]) {
        assert txt[m..][1..] == txt[m + 1..];
        assert txt[ti..][m + 1 - ti..] == txt[m + 1..];
        StarredAt(q, txt[ti..], m + 1 - ti);
      } else {
        assert m == |txt| ==> Eager(q, txt[m..]);
        assert txt[ti..][m - ti..] == txt[m..];
        StarredAt(q, txt[ti..], m - ti);
      }
    }
  }

  lemma OneMore(pat: string, txt: string, pi: nat, ti: nat, starPi: int, starTi: nat)
    requires pi < |pat| && starTi <= ti < |txt| && -1 <= starPi < pi && Accepts(pat[pi], txt[ti])
    requires SinceStar(pat, txt, pi, ti, starPi, starTi)
    ensures SinceStar(pat, txt, pi + 1, ti + 1, starPi, starTi)
    ensures Pending(pat, txt, pi, ti, starPi, starTi) == Pending(pat, txt, pi + 1, ti + 1, starPi, starTi)
  {
    assert pat[pi..][1..] == pat[pi + 1..] && txt[ti..][1..] == txt[ti + 1..];
    if starPi >= 0 {
      assert pat[starPi + 1..pi + 1] == pat[starPi + 1..pi] + [pat[pi]];
    }
  }

  /** Stuck: only the recorded star is left, one character further on. */
  lemma BackToStar(pat: string, txt: string, pi: nat, ti: nat, starPi: int, starTi: nat)
    requires pi <= |pat| && starTi <= ti < |txt| && -1 <= starPi < pi
    requires pi < |pat| ==> !Accepts(pat[pi], txt[ti]) && pat[pi] != '*'
    ensures starPi >= 0 ==>
      Pending(pat, txt, pi, ti, starPi, starTi) == Pending(pat, txt, starPi + 1, starTi + 1, starPi, starTi + 1)
    ensures starPi < 0 ==> !Pending(pat, txt, pi, ti, starPi, starTi)
  {
    if starPi >= 0 && starTi + 1 < |txt| {
      assert txt[starTi + 1..][1..] == txt[starTi + 2..];
    }
  }

  /** At the end of the text the older star has nothing left to offer. */
  lemma EndDecides(pat: string, txt: string, pi: nat, starPi: int, starTi: nat)
    requires pi <= |pat| && starTi <= |txt| && -1 <= starPi < pi && SinceStar(pat, txt, pi, |txt|, starPi, starTi)
    ensures Pending(pat, txt, pi, |txt|, starPi, starTi) == AllStars(pat[pi..])
  {
    if starPi >= 0 && starTi < |txt| && Starred(pat[starPi + 1..], txt[starTi + 1..]) {
      assert pat[starPi + 1..pi] + pat[pi..] == pat[starPi + 1..];
      var m := OlderStarSubsumed(pat[starPi + 1..pi], pat[pi..], txt, starTi);
      assert m == |txt|;
    }
  }

  lemma FirstStar(pat: string, pi: nat)
    requires pi < |pat|
    ensures AllStars(pat[pi..]) <==> pat[pi] == '*' && AllStars(pat[pi + 1..])
  {
    assert pat[pi..] == [pat[pi]] + pat[pi + 1..];
  }

  /** The matcher decides `Eager`, and so terminates, on every pattern and text. */
  method GlobMatch(pat: string, txt: string) returns (found: bool)
    ensures found == Eager(pat, txt)
  {
    var pi, ti := 0, 0;
    var starPi, starTi := -1, 0;
    ghost var goal := Eager(pat, txt);
    assert pat[0..] == pat && txt[0..] == txt;
    while ti < |txt|
      invariant 0 <= pi <= |pat| && 0 <= starTi <= ti <= |txt| && -1 <= starPi < pi
      invariant SinceStar(pat, txt, pi, ti, starPi, starTi)
      invariant goal == Pending(pat, txt, pi, ti, starPi, starTi)
      decreases |pat| - starPi, |txt| - starTi, |txt| - ti
    {
      if pi < |pat| && (pat[pi] == '?' || pat[pi] == txt[ti]) {
        OneMore(pat, txt, pi, ti, starPi, starTi);
        pi, ti := pi + 1, ti + 1;
      } else if pi < |pat| && pat[pi] == '*' {
        NewStarSuffices(pat, txt, pi, ti, starPi, starTi);
        starPi, starTi := pi, ti;
        pi := pi + 1;
      } else if starPi != -1 {
        BackToStar(pat, txt, pi, ti, starPi, starTi);
        pi := starPi + 1;
        starTi := starTi + 1;
        ti := starTi;
      } else {
        BackToStar(pat, txt, pi, ti, starPi, starTi);
        return false;
      }
    }
    EndDecides(pat, txt, pi, starPi, starTi);
    while pi < |pat| && pat[pi] == '*'
      invariant pi <= |pat|
      invariant goal == AllStars(pat[pi..])
    {
      FirstStar(pat, pi);
      pi := pi + 1;
    }
    if pi < |pat| {
      FirstStar(pat, pi);
    }
    found := pi == |pat|;
  }

  // ----- the matcher against the declarative relation -----

  lemma {:induction false} StarAbsorbs(p: string, t: string, n: nat)
    requires p != [] && p[0] == '*' && n <= |t| && Matches(p[1..], t[n..])
    ensures Matches(p, t)
    decreases n
  {
    if n == 0 {
      assert t[0..] == t;
    } else {
      assert t[1..][n - 1..] == t[n..];
      StarAbsorbs(p, t[1..], n - 1);
    }
  }

  lemma {:induction false} AllStarsMatchEmpty(p: string)
    ensures Matches(p, []) == AllStars(p)
  {
    if p != [] {
      AllStarsMatchEmpty(p[1..]);
      assert forall i :: 1 <= i < |p| ==> p[i] == p[1..][i - 1];
    }
  }

  /** Sound on every text: an accepted text fits the pattern. */
  lemma {:induction false} EagerSound(p: string, t: string)
    requires Eager(p, t)
    ensures Matches(p, t)
    decreases |p| + |t|
  {
    if t == [] {
      AllStarsMatchEmpty(p);
    } else if Accepts(p[0], t[0]) {
      EagerSound(p[1..], t[1..]);
      if p[0] == '*' {
        StarAbsorbs(p, t, 1);
      }
    } else {
      var n := StarredWitness(p[1..], t);
      EagerSound(p[1..], t[n..]);
      StarAbsorbs(p, t, n);
    }
  }

  /** Complete on texts without `*`. */
  lemma {:induction false} EagerComplete(p: string, t: string)
    requires '*' !in t && Matches(p, t)
    ensures Eager(p, t)
    decreases |p| + |t|
  {
    if t == [] {
      AllStarsMatchEmpty(p);
    } else if p[0] == '*' {
      if Matches(p[1..], t) {
        EagerComplete(p[1..], t);
      } else {
        EagerComplete(p, t[1..]);
        if t[1..] == [] {
          assert AllStars(p[1..]);
        }
        assert Starred(p[1..], t[1..]);
      }
    } else {
      EagerComplete(p[1..], t[1..]);
    }
  }

  /** `n` question marks. */
  function Marks(n: nat): (p: string)
    ensures |p| == n && forall i :: 0 <= i < n ==> p[i] == '?'
  {
    if n == 0 then [] else ['?'] + Marks(n - 1)
  }

  lemma {:induction false} MarksMatchLength(t: string)
    ensures Matches(Marks(|t|), t)
  {
    if t != [] {
      MarksMatchLength(t[1..]);
    }
  }

  lemma {:induction false} MarksThenMatch(k: nat, q: string, t: string)
    requires k <= |t|
    ensures Matches(Marks(k) + q, t) == Matches(q, t[k..])
    ensures (k < |t| || q != []) ==> Eager(Marks(k) + q, t) == Eager(q, t[k..])
    decreases k
  {
    if k == 0 {
      assert Marks(0) + q == q && t[0..] == t;
    } else {
      var p := Marks(k) + q;
      assert p[0] == '?' && p[1..] == Marks(k - 1) + q;
      assert t[1..][k - 1..] == t[k..];
      MarksThenMatch(k - 1, q, t[1..]);
      assert t[1..] == [] && q == [] ==> k == |t|;
    }
  }

  /** A pattern that fits `t` but that the matcher refuses, for a `*` at position `k`. */
  function Refused(t: string, k: nat): string
    requires k < |t|
  {
    Marks(k) + (['*'] + Marks(|t| - k))
  }

  lemma {:induction false} TooManyMarks(t: string, n: nat)
    requires n > |t|
    ensures !Eager(Marks(n), t)
  {
    if t == [] {
      assert Marks(n)[0] == '?';
    } else {
      TooManyMarks(t[1..], n - 1);
    }
  }

  lemma StarInTextRefused(t: string, k: nat)
    requires k < |t| && t[k] == '*'
    ensures Matches(Refused(t, k), t) && !Eager(Refused(t, k), t)
  {
    var q := ['*'] + Marks(|t| - k);
    MarksThenMatch(k, q, t);
    MarksMatchLength(t[k..]);
    assert q[1..] == Marks(|t| - k);
    TooManyMarks(t[k..][1..], |t| - k);
  }

  /**
   * The matcher decides the declarative relation for every pattern exactly on
   * the texts that hold no `*`.
   */
  lemma GlobExact(t: string)
    ensures (forall p: string :: Eager(p, t) == Matches(p, t)) <==> '*' !in t
  {
    if '*' in t {
      var k :| 0 <= k < |t| && t[k] == '*';
      StarInTextRefused(t, k);
      assert Eager(Refused(t, k), t) != Matches(Refused(t, k), t);
    } else {
      forall p: string ensures Eager(p, t) == Matches(p, t) {
        if Eager(p, t) { EagerSound(p, t); }
        if Matches(p, t) { EagerComplete(p, t); }
      }
    }
  }
}
