// Percent-encoding (sections 2.1 and 2.3 of RFC 3986), form decoding (the
// application/x-www-form-urlencoded parser of the WHATWG URL Standard) and the
// canonical query string of AWS Signature Version 4.
module Query {
  import opened Text
  import opened Order

  type Pair = (string, string)

  // ----- encoding -----

  predicate Unreserved(c: char) {
    'A' <= c <= 'Z' || 'a' <= c <= 'z' || '0' <= c <= '9' || c == '-' || c == '.' || c == '_' || c == '~'
  }

  function UpperHex(d: nat): (c: char)
    requires d < 16
    ensures '0' <= c <= '9' || 'A' <= c <= 'F'
  {
    if d < 10 then ('0' as int + d) as char else ('A' as int + d - 10) as char
  }

  function EncodeByte(c: char, encodeSlash: bool): string {
    if Unreserved(c) then [c]
    else if c == '/' && !encodeSlash then "/"
    else ['%', UpperHex(c as int / 16 % 16), UpperHex(c as int % 16)]
  }

  function Encode(s: string, encodeSlash: bool): string {
    if s == [] then [] else Encode(s[..|s| - 1], encodeSlash) + EncodeByte(s[|s| - 1], encodeSlash)
  }

  method UriEncode(input: string, encodeSlash: bool) returns (result: string)
    ensures result == Encode(input, encodeSlash)
  {
    result := "";
    for i := 0 to |input|
      invariant result == Encode(input[..i], encodeSlash)
    {
      var c := input[i];
      assert input[..i + 1][..i] == input[..i];
      if Unreserved(c) {
        result := result + [c];
      } else if c == '/' && !encodeSlash {
        result := result + "/";
      } else {
        result := result + ['%', UpperHex(c as int / 16 % 16), UpperHex(c as int % 16)];
      }
    }
    assert input[..|input|] == input;
  }

  // ----- decoding -----

  predicate IsHex(c: char) {
    '0' <= c <= '9' || 'A' <= c <= 'F' || 'a' <= c <= 'f'
  }

  function HexValue(c: char): (d: nat)
    requires IsHex(c)
    ensures d < 16
  {
    if c <= '9' then c as int - '0' as int
    else if c <= 'F' then c as int - 'A' as int + 10
    else c as int - 'a' as int + 10
  }

  /** `+` is a space, `%` and two hex digits a byte, anything else itself. */
  function FormDecode(s: string): string {
    if s == [] then []
    else if s[0] == '%' && |s| >= 3 && IsHex(s[1]) && IsHex(s[2]) then
      [(16 * HexValue(s[1]) + HexValue(s[2])) as char] + FormDecode(s[3..])
    else [if s[0] == '+' then ' ' else s[0]] + FormDecode(s[1..])
  }

  /** The pairs of a query string: split at `&`, empty pieces skipped, each cut at its first `=`. */
  function FormParse(query: string): seq<Pair> {
    PairsOf(Split(query, '&'))
  }

  function PairsOf(pieces: seq<string>): seq<Pair> {
    if pieces == [] then []
    else
      (if pieces[0] == [] then []
       else var (k, v) := SplitFirst(pieces[0], '='); [(FormDecode(k), FormDecode(v))])
      + PairsOf(pieces[1..])
  }

  // ----- encoding is undone by decoding -----

  /** Characters that survive in an encoded component. */
  predicate Plain(c: char) {
    Unreserved(c) || c == '%'
  }

  predicate AllPlain(s: string) {
    forall i :: 0 <= i < |s| ==> Plain(s[i])
  }

  lemma {:induction false} EncodeIsPlain(s: string)
    ensures AllPlain(Encode(s, true))
  {
    if s != [] {
      EncodeIsPlain(s[..|s| - 1]);
    }
  }

  lemma UpperHexValue(d: nat)
    requires d < 16
    ensures IsHex(UpperHex(d)) && HexValue(UpperHex(d)) == d
  {
  }

  lemma DecodeOne(c: char, rest: string)
    requires IsByte(c)
    ensures FormDecode(EncodeByte(c, true) + rest) == [c] + FormDecode(rest)
  {
    var e := EncodeByte(c, true);
    var s := e + rest;
    if Unreserved(c) {
      assert s[1..] == rest;
    } else {
      UpperHexValue(c as int / 16 % 16);
      UpperHexValue(c as int % 16);
      assert s[0] == '%' && s[3..] == rest;
    }
  }

  lemma {:induction false} DecodeEncodePrefix(s: string, rest: string)
    requires IsBytes(s)
    ensures FormDecode(Encode(s, true) + rest) == s + FormDecode(rest)
    decreases |s|
  {
    if s == [] {
      assert Encode(s, true) + rest == rest;
    } else {
      var n := |s| - 1;
      var e, front := EncodeByte(s[n], true), Encode(s[..n], true);
      DecodeEncodePrefix(s[..n], e + rest);
      DecodeOne(s[n], rest);
      Regroup(front, e, rest);
      Regroup(s[..n], [s[n]], FormDecode(rest));
      assert s == s[..n] + [s[n]];
    }
  }

  /** Decoding gives back what was encoded; encoding is therefore injective. */
  lemma DecodeEncode(s: string)
    requires IsBytes(s)
    ensures FormDecode(Encode(s, true)) == s
  {
    DecodeEncodePrefix(s, "");
    assert Encode(s, true) + "" == Encode(s, true) && s + FormDecode("") == s;
  }

  lemma {:induction false} EncodeUnreserved(s: string)
    requires forall i :: 0 <= i < |s| ==> Unreserved(s[i])
    ensures Encode(s, true) == s
  {
    if s != [] {
      EncodeUnreserved(s[..|s| - 1]);
    }
  }

  lemma {:induction false} DecodeBytes(s: string)
    requires IsBytes(s)
    ensures IsBytes(FormDecode(s))
  {
    if s != [] {
      if s[0] == '%' && |s| >= 3 && IsHex(s[1]) && IsHex(s[2]) {
        DecodeBytes(s[3..]);
      } else {
        DecodeBytes(s[1..]);
      }
    }
  }

  // ----- lists of pairs -----

  function EncodePair(p: Pair): Pair {
    (Encode(p.0, true), Encode(p.1, true))
  }

  function DecodePair(p: Pair): Pair {
    (FormDecode(p.0), FormDecode(p.1))
  }

  function Map(f: Pair -> Pair, ps: seq<Pair>): (r: seq<Pair>)
    ensures |r| == |ps| && forall i :: 0 <= i < |ps| ==> r[i] == f(ps[i])
  {
    seq(|ps|, i requires 0 <= i < |ps| => f(ps[i]))
  }

  function EncodeAll(ps: seq<Pair>): seq<Pair> {
    Map(EncodePair, ps)
  }

  function DecodeAll(ps: seq<Pair>): seq<Pair> {
    Map(DecodePair, ps)
  }

  lemma RemoveAt(b: seq<Pair>, k: nat)
    requires k < |b|
    ensures multiset(b[..k] + b[k + 1..]) == multiset(b) - multiset{b[k]} && b[k] in multiset(b)
  {
    assert b == b[..k] + ([b[k]] + b[k + 1..]);
    assert multiset(b) == multiset(b[..k] + b[k + 1..]) + multiset{b[k]};
  }

  lemma MapRemoveAt(f: Pair -> Pair, b: seq<Pair>, k: nat)
    requires k < |b|
    ensures multiset(Map(f, b)) == multiset(Map(f, b[..k] + b[k + 1..])) + multiset{f(b[k])}
  {
    RemoveAt(Map(f, b), k);
    assert Map(f, b[..k] + b[k + 1..]) == Map(f, b)[..k] + Map(f, b)[k + 1..];
  }

  lemma WithoutFirst(a: seq<Pair>)
    requires a != []
    ensures multiset(a[1..]) == multiset(a) - multiset{a[0]}
  {
    RemoveAt(a, 0);
    assert a[..0] + a[1..] == a[1..];
  }

  lemma MapWithFirst(f: Pair -> Pair, a: seq<Pair>)
    requires a != []
    ensures multiset(Map(f, a)) == multiset(Map(f, a[1..])) + multiset{f(a[0])}
  {
    MapRemoveAt(f, a, 0);
    assert a[..0] + a[1..] == a[1..];
  }

  lemma {:induction false} MapPermuted(f: Pair -> Pair, a: seq<Pair>, b: seq<Pair>)
    requires multiset(a) == multiset(b)
    ensures multiset(Map(f, a)) == multiset(Map(f, b))
    decreases |a|
  {
    if a == [] {
      assert |multiset(b)| == |b|;
    } else {
      var x := a[0];
      assert x in multiset(b) && x in b;
      var k :| 0 <= k < |b| && b[k] == x;
      var rest := b[..k] + b[k + 1..];
      WithoutFirst(a);
      RemoveAt(b, k);
      MapPermuted(f, a[1..], rest);
      MapWithFirst(f, a);
      MapRemoveAt(f, b, k);
    }
  }

  predicate BytePair(p: Pair) {
    IsBytes(p.0) && IsBytes(p.1)
  }

  predicate BytePairs(ps: seq<Pair>) {
    forall i :: 0 <= i < |ps| ==> BytePair(ps[i])
  }

  lemma DecodeEncodePair(p: Pair)
    requires BytePair(p)
    ensures DecodePair(EncodePair(p)) == p
  {
    DecodeEncode(p.0);
    DecodeEncode(p.1);
  }

  lemma DecodeEncodeAll(ps: seq<Pair>)
    requires BytePairs(ps)
    ensures DecodeAll(EncodeAll(ps)) == ps
  {
    forall i | 0 <= i < |ps| ensures DecodeAll(EncodeAll(ps))[i] == ps[i] {
      DecodeEncodePair(ps[i]);
    }
  }

  // ----- sorting -----

  predicate PairLess(a: Pair, b: Pair) {
    Less(a.0, b.0) || (a.0 == b.0 && Less(a.1, b.1))
  }

  predicate PairLeq(a: Pair, b: Pair) {
    a == b || PairLess(a, b)
  }

  lemma PairTotal(a: Pair, b: Pair)
    ensures PairLeq(a, b) || PairLeq(b, a)
    ensures PairLeq(a, b) && PairLeq(b, a) ==> a == b
  {
    LessTotal(a.0, b.0);
    LessTotal(a.1, b.1);
    if Less(a.0, b.0) { LessAsymmetric(a.0, b.0); }
    if Less(b.0, a.0) { LessAsymmetric(b.0, a.0); }
    if Less(a.1, b.1) { LessAsymmetric(a.1, b.1); }
    if Less(b.1, a.1) { LessAsymmetric(b.1, a.1); }
  }

  lemma PairTransitive(a: Pair, b: Pair, c: Pair)
    requires PairLeq(a, b) && PairLeq(b, c)
    ensures PairLeq(a, c)
  {
    if a != b && b != c {
      if Less(a.0, b.0) && Less(b.0, c.0) { LessTransitive(a.0, b.0, c.0); }
      if Less(a.1, b.1) && Less(b.1, c.1) { LessTransitive(a.1, b.1, c.1); }
    }
  }

  ghost predicate Sorted(ps: seq<Pair>) {
    forall i, j :: 0 <= i < j < |ps| ==> PairLeq(ps[i], ps[j])
  }

  function Insert(p: Pair, ps: seq<Pair>): seq<Pair> {
    if ps == [] then [p]
    else if PairLeq(p, ps[0]) then [p] + ps
    else [ps[0]] + Insert(p, ps[1..])
  }

  /** The sorted list of the pairs. */
  function Sort(ps: seq<Pair>): seq<Pair> {
    if ps == [] then [] else Insert(ps[0], Sort(ps[1..]))
  }

  lemma {:induction false} InsertPermutes(p: Pair, ps: seq<Pair>)
    ensures multiset(Insert(p, ps)) == multiset{p} + multiset(ps)
    ensures forall x :: x in Insert(p, ps) ==> x == p || x in ps
  {
    if ps != [] {
      assert ps == [ps[0]] + ps[1..];
      InsertPermutes(p, ps[1..]);
    }
  }

  lemma SortedCons(x: Pair, ps: seq<Pair>)
    requires Sorted(ps) && forall y :: y in ps ==> PairLeq(x, y)
    ensures Sorted([x] + ps)
  {
  }

  lemma {:induction false} InsertSorted(p: Pair, ps: seq<Pair>)
    requires Sorted(ps)
    ensures Sorted(Insert(p, ps))
  {
    if ps != [] {
      PairTotal(p, ps[0]);
      if PairLeq(p, ps[0]) {
        forall i | 0 <= i < |ps| ensures PairLeq(p, ps[i]) {
          if i > 0 { PairTransitive(p, ps[0], ps[i]); }
        }
        SortedCons(p, ps);
      } else {
        InsertSorted(p, ps[1..]);
        InsertPermutes(p, ps[1..]);
        SortedCons(ps[0], Insert(p, ps[1..]));
      }
    }
  }

  lemma {:induction false} SortSorted(ps: seq<Pair>)
    ensures Sorted(Sort(ps)) && multiset(Sort(ps)) == multiset(ps)
  {
    if ps != [] {
      SortSorted(ps[1..]);
      InsertSorted(ps[0], Sort(ps[1..]));
      InsertPermutes(ps[0], Sort(ps[1..]));
      assert ps == [ps[0]] + ps[1..];
    }
  }

  /** The first of a sorted list is below everything in it. */
  lemma HeadIsLeast(a: seq<Pair>, x: Pair)
    requires Sorted(a) && a != [] && x in a
    ensures PairLeq(a[0], x)
  {
    var j :| 0 <= j < |a| && a[j] == x;
  }

  lemma SameHead(a: seq<Pair>, b: seq<Pair>)
    requires Sorted(a) && Sorted(b) && multiset(a) == multiset(b) && a != [] && b != []
    ensures a[0] == b[0]
  {
    assert a[0] in multiset(b) && b[0] in multiset(a);
    HeadIsLeast(a, b[0]);
    HeadIsLeast(b, a[0]);
    PairTotal(a[0], b[0]);
  }

  /** A multiset of pairs has one sorted order. */
  lemma {:induction false} SortedUnique(a: seq<Pair>, b: seq<Pair>)
    requires Sorted(a) && Sorted(b) && multiset(a) == multiset(b)
    ensures a == b
    decreases |a|
  {
    assert |a| == |multiset(a)| == |multiset(b)| == |b|;
    if a != [] {
      SameHead(a, b);
      WithoutFirst(a);
      WithoutFirst(b);
      SortedUnique(a[1..], b[1..]);
      assert a == [a[0]] + a[1..] && b == [b[0]] + b[1..];
    }
  }

  // ----- the canonical query string -----

  function Rendered(ps: seq<Pair>): (r: seq<string>)
    ensures |r| == |ps| && forall i :: 0 <= i < |ps| ==> r[i] == ps[i].0 + "=" + ps[i].1
  {
    seq(|ps|, i requires 0 <= i < |ps| => ps[i].0 + "=" + ps[i].1)
  }

  function Render(ps: seq<Pair>): string {
    Text.Join(Rendered(ps), '&')
  }

  function Canonical(ps: seq<Pair>): string {
    Render(Sort(EncodeAll(ps)))
  }

  function CanonicalQuery(query: string): string {
    if query == [] then "" else Canonical(FormParse(query))
  }

  predicate PlainPair(p: Pair) {
    AllPlain(p.0) && AllPlain(p.1)
  }

  lemma NoSeparators(s: string)
    requires AllPlain(s)
    ensures '=' !in s && '&' !in s
  {
  }

  lemma {:induction false} PairsOfRendered(ps: seq<Pair>)
    requires forall i :: 0 <= i < |ps| ==> PlainPair(ps[i])
    ensures PairsOf(Rendered(ps)) == DecodeAll(ps)
  {
    if ps != [] {
      assert Rendered(ps)[1..] == Rendered(ps[1..]);
      PairsOfRendered(ps[1..]);
      NoSeparators(ps[0].0);
      SplitFirstAt(ps[0].0, ps[0].1, '=');
      assert ps[0].0 + "=" + ps[0].1 == ps[0].0 + ['='] + ps[0].1;
      assert DecodeAll(ps) == [DecodePair(ps[0])] + DecodeAll(ps[1..]);
    }
  }

  /** A rendered list of encoded pairs parses back to the decoded list, in order. */
  lemma ParseRender(ps: seq<Pair>)
    requires forall i :: 0 <= i < |ps| ==> PlainPair(ps[i])
    ensures FormParse(Render(ps)) == DecodeAll(ps)
  {
    if ps == [] {
      assert Split("", '&') == [""] && PairsOf([""]) == [] + PairsOf([]);
    } else {
      var r := Rendered(ps);
      forall i | 0 <= i < |r| ensures '&' !in r[i] {
        NoSeparators(ps[i].0);
        NoSeparators(ps[i].1);
      }
      SplitJoin(r, '&');
      PairsOfRendered(ps);
    }
  }

  lemma EncodedIsPlain(p: Pair)
    ensures PlainPair(EncodePair(p))
  {
    EncodeIsPlain(p.0);
    EncodeIsPlain(p.1);
  }

  /** Every pair of a sorted encoded list is the encoding of one of the originals. */
  lemma SortedEncoded(ps: seq<Pair>, i: nat) returns (k: nat)
    requires |Sort(EncodeAll(ps))| == |ps| && i < |ps|
    ensures k < |ps| && Sort(EncodeAll(ps))[i] == EncodePair(ps[k]) && PlainPair(Sort(EncodeAll(ps))[i])
  {
    var e, s := EncodeAll(ps), Sort(EncodeAll(ps));
    SortSorted(e);
    assert s[i] in multiset(s) && s[i] in multiset(e) && s[i] in e;
    k :| 0 <= k < |e| && e[k] == s[i];
    EncodedIsPlain(ps[k]);
  }

  lemma SortedEncodedPlain(ps: seq<Pair>)
    ensures |Sort(EncodeAll(ps))| == |ps|
    ensures forall i :: 0 <= i < |ps| ==> PlainPair(Sort(EncodeAll(ps))[i])
  {
    SortSorted(EncodeAll(ps));
    assert |multiset(Sort(EncodeAll(ps)))| == |multiset(EncodeAll(ps))|;
    forall i | 0 <= i < |ps| ensures PlainPair(Sort(EncodeAll(ps))[i]) {
      var _ := SortedEncoded(ps, i);
    }
  }

  /** The pairs can be read back from the canonical form, up to their order. */
  lemma CanonicalParses(ps: seq<Pair>)
    requires BytePairs(ps)
    ensures FormParse(Canonical(ps)) == DecodeAll(Sort(EncodeAll(ps)))
    ensures multiset(FormParse(Canonical(ps))) == multiset(ps)
  {
    SortedEncodedPlain(ps);
    ParseRender(Sort(EncodeAll(ps)));
    SortSorted(EncodeAll(ps));
    MapPermuted(DecodePair, Sort(EncodeAll(ps)), EncodeAll(ps));
    DecodeEncodeAll(ps);
  }

  lemma CanonicalPermuted(a: seq<Pair>, b: seq<Pair>)
    requires multiset(a) == multiset(b)
    ensures Sort(EncodeAll(a)) == Sort(EncodeAll(b)) && Canonical(a) == Canonical(b)
  {
    MapPermuted(EncodePair, a, b);
    SortSorted(EncodeAll(a));
    SortSorted(EncodeAll(b));
    SortedUnique(Sort(EncodeAll(a)), Sort(EncodeAll(b)));
  }

  lemma {:induction false} SplitBytes(s: string, c: char)
    requires IsBytes(s)
    ensures forall i :: 0 <= i < |Split(s, c)| ==> IsBytes(Split(s, c)[i])
  {
    if s != [] {
      SplitBytes(s[1..], c);
    }
  }

  lemma {:induction false} SplitFirstBytes(s: string, c: char)
    requires IsBytes(s)
    ensures IsBytes(SplitFirst(s, c).0) && IsBytes(SplitFirst(s, c).1)
  {
    if s != [] {
      SplitFirstBytes(s[1..], c);
    }
  }

  lemma {:induction false} PairsOfBytes(pieces: seq<string>)
    requires forall i :: 0 <= i < |pieces| ==> IsBytes(pieces[i])
    ensures BytePairs(PairsOf(pieces))
  {
    if pieces != [] {
      PairsOfBytes(pieces[1..]);
      SplitFirstBytes(pieces[0], '=');
      DecodeBytes(SplitFirst(pieces[0], '=').0);
      DecodeBytes(SplitFirst(pieces[0], '=').1);
    }
  }

  /**
   * The canonical query string is a complete invariant: two query strings share
   * it exactly when they decode to the same pairs, each as often.
   */
  lemma CanonicalQueryComplete(q: string, r: string)
    requires IsBytes(q) && IsBytes(r)
    ensures CanonicalQuery(q) == CanonicalQuery(r) <==> multiset(FormParse(q)) == multiset(FormParse(r))
  {
    SplitBytes(q, '&');
    PairsOfBytes(Split(q, '&'));
    SplitBytes(r, '&');
    PairsOfBytes(Split(r, '&'));
    EmptyQuery();
    if multiset(FormParse(q)) == multiset(FormParse(r)) {
      CanonicalPermuted(FormParse(q), FormParse(r));
    } else {
      CanonicalParses(FormParse(q));
      CanonicalParses(FormParse(r));
    }
  }

  lemma {:induction false} RenderOneLine(ps: seq<Pair>)
    requires forall i :: 0 <= i < |ps| ==> PlainPair(ps[i])
    ensures '\n' !in Render(ps)
  {
    if ps != [] {
      assert Rendered(ps)[1..] == Rendered(ps[1..]);
      RenderOneLine(ps[1..]);
      assert '\n' !in ps[0].0 && '\n' !in ps[0].1;
    }
  }

  lemma CanonicalOneLine(ps: seq<Pair>)
    ensures '\n' !in Canonical(ps)
  {
    SortedEncodedPlain(ps);
    RenderOneLine(Sort(EncodeAll(ps)));
  }

  lemma EmptyQuery()
    ensures FormParse("") == [] && Canonical([]) == ""
  {
    assert Split("", '&') == [""];
    assert PairsOf([""]) == [] + PairsOf([""][1..]);
    assert Sort(EncodeAll([])) == [];
  }

  /** The method the source runs: parse, encode each pair, sort, join. */
  method CanonicalQueryString(query: string) returns (r: string)
    ensures r == CanonicalQuery(query)
  {
    if query == [] { return ""; }
    var pairs := FormParse(query);
    var encoded: seq<Pair> := [];
    for i := 0 to |pairs|
      invariant encoded == EncodeAll(pairs[..i])
    {
      var k := UriEncode(pairs[i].0, true);
      var v := UriEncode(pairs[i].1, true);
      encoded := encoded + [(k, v)];
    }
    assert pairs[..|pairs|] == pairs;
    r := Render(Sort(encoded));
  }

  // ----- what a query string means -----

  /** A query string is read piece by piece: `&` separates, wherever it stands. */
  lemma ParseConcat(a: string, b: string)
    ensures FormParse(a + "&" + b) == FormParse(a) + FormParse(b)
  {
    SplitConcat(a, b, '&');
    PairsConcat(Split(a, '&'), Split(b, '&'));
  }

  lemma {:induction false} SplitConcat(a: string, b: string, c: char)
    ensures Split(a + [c] + b, c) == Split(a, c) + Split(b, c)
  {
    var s := a + [c] + b;
    if a == [] {
      assert s[0] == c && s[1..] == b;
    } else {
      assert s[0] == a[0] && s[1..] == a[1..] + [c] + b;
      SplitConcat(a[1..], b, c);
    }
  }

  lemma {:induction false} PairsConcat(a: seq<string>, b: seq<string>)
    ensures PairsOf(a + b) == PairsOf(a) + PairsOf(b)
  {
    if a == [] {
      assert a + b == b;
    } else {
      assert (a + b)[0] == a[0] && (a + b)[1..] == a[1..] + b;
      PairsConcat(a[1..], b);
    }
  }

  /** An empty piece is nothing; one without `=` is a key with an empty value; else the first `=` separates. */
  lemma ParsePiece(k: string, v: string)
    requires '&' !in k && '=' !in k && '&' !in v
    ensures FormParse("") == []
    ensures k != [] ==> FormParse(k) == [(FormDecode(k), "")]
    ensures FormParse(k + "=" + v) == [(FormDecode(k), FormDecode(v))]
  {
    EmptyQuery();
    SplitPlain(k, '&');
    SplitPlain(k + "=" + v, '&');
    SplitFirstNone(k, '=');
    SplitFirstAt(k, v, '=');
    assert k + "=" + v == k + ['='] + v;
    assert PairsOf([k][1..]) == [] && PairsOf([k + "=" + v][1..]) == [];
    assert FormDecode("") == "";
  }

  lemma {:induction false} SplitFirstNone(s: string, c: char)
    requires c !in s
    ensures SplitFirst(s, c) == (s, "")
  {
    if s != [] {
      SplitFirstNone(s[1..], c);
      assert s == [s[0]] + s[1..];
    }
  }

  function UpperHexChar(c: char): (u: char)
    ensures IsHex(c) ==> u == UpperHex(HexValue(c))
  {
    if 'a' <= c <= 'f' then (c as int - 32) as char else c
  }

  predicate EscapeAt(s: string) {
    |s| >= 3 && s[0] == '%' && IsHex(s[1]) && IsHex(s[2])
  }

  /** Every `+` written `%20`, and every escape in capitals. */
  function Normal(s: string): string {
    if s == [] then []
    else if EscapeAt(s) then ['%', UpperHexChar(s[1]), UpperHexChar(s[2])] + Normal(s[3..])
    else (if s[0] == '+' then "%20" else [s[0]]) + Normal(s[1..])
  }

  lemma EscapeReads(s: string)
    requires EscapeAt(s)
    ensures FormDecode(s) == [(16 * HexValue(s[1]) + HexValue(s[2])) as char] + FormDecode(s[3..])
  {
  }

  /** The first character of a normal form is `%` exactly for an escape, a plus or a percent sign. */
  lemma NormalHead(s: string)
    requires s != []
    ensures Normal(s) != [] && (Normal(s)[0] == if s[0] == '+' then '%' else s[0])
  {
  }

  /** A percent sign that starts no escape starts none in the normal form either. */
  lemma StrayStaysStray(s: string)
    requires s != [] && s[0] == '%' && !EscapeAt(s)
    ensures Normal(s) == ['%'] + Normal(s[1..]) && !EscapeAt(Normal(s))
  {
    var t := s[1..];
    if |t| >= 1 {
      NormalHead(t);
      if IsHex(t[0]) && |t| >= 2 {
        assert Normal(t) == [t[0]] + Normal(t[1..]);
        NormalHead(t[1..]);
      }
    }
  }

  lemma NormalEscape(s: string)
    requires EscapeAt(s)
    ensures EscapeAt(Normal(s)) && Normal(s)[3..] == Normal(s[3..])
    ensures HexValue(Normal(s)[1]) == HexValue(s[1]) && HexValue(Normal(s)[2]) == HexValue(s[2])
  {
  }

  lemma NormalPlus(s: string)
    requires s != [] && s[0] == '+'
    ensures EscapeAt(Normal(s)) && Normal(s)[3..] == Normal(s[1..]) && FormDecode(Normal(s)) == " " + FormDecode(Normal(s[1..]))
  {
    EscapeReads(Normal(s));
  }

  lemma NormalPlain(s: string)
    requires s != [] && s[0] != '+' && !EscapeAt(s)
    ensures Normal(s) == [s[0]] + Normal(s[1..]) && FormDecode(Normal(s)) == [s[0]] + FormDecode(Normal(s[1..]))
  {
    if s[0] == '%' {
      StrayStaysStray(s);
    }
    assert Normal(s)[1..] == Normal(s[1..]);
  }

  /** Decoding reads a string and its normal form alike. */
  lemma {:induction false} DecodeNormal(s: string)
    ensures FormDecode(Normal(s)) == FormDecode(s)
  {
    if s == [] {
      assert Normal(s) == s;
    } else if EscapeAt(s) {
      NormalEscape(s);
      EscapeReads(s);
      EscapeReads(Normal(s));
      DecodeNormal(s[3..]);
    } else if s[0] == '+' {
      NormalPlus(s);
      DecodeNormal(s[1..]);
    } else {
      NormalPlain(s);
      DecodeNormal(s[1..]);
    }
  }

  /** Characters that start no escape and are no plus stand for themselves. */
  lemma {:induction false} DecodeLiteral(s: string)
    requires '%' !in s && '+' !in s
    ensures FormDecode(s) == s
  {
    if s != [] {
      DecodeLiteral(s[1..]);
      assert s == [s[0]] + s[1..];
    }
  }

  lemma Glue(t: string, n: string, c: char, m: string)
    ensures t + (n + [c] + m) == (t + n) + [c] + m
  {
  }

  /** The text of the first token of a normal form. */
  function Token(s: string): string
    requires s != []
  {
    if EscapeAt(s) then ['%', UpperHexChar(s[1]), UpperHexChar(s[2])] else if s[0] == '+' then "%20" else [s[0]]
  }

  function Rest(s: string): string
    requires s != []
  {
    if EscapeAt(s) then s[3..] else s[1..]
  }

  lemma TokenApart(a: string, c: char, b: string)
    requires a != [] && !IsHex(c)
    ensures Token(a + [c] + b) == Token(a) && Rest(a + [c] + b) == Rest(a) + [c] + b
  {
    var s := a + [c] + b;
    assert s[0] == a[0];
    if EscapeAt(a) {
      assert s[..3] == a[..3] && s[3..] == a[3..] + [c] + b;
    } else {
      assert |a| >= 3 ==> s[1] == a[1] && s[2] == a[2];
      assert |a| == 2 ==> s[2] == c;
      assert |a| == 1 ==> s[1] == c;
      assert s[1..] == a[1..] + [c] + b;
    }
  }

  lemma {:induction false} NormalApart(a: string, c: char, b: string)
    requires c != '%' && c != '+' && !IsHex(c)
    ensures Normal(a + [c] + b) == Normal(a) + [c] + Normal(b)
  {
    var s := a + [c] + b;
    if a == [] {
      assert s[0] == c && s[1..] == b;
    } else {
      TokenApart(a, c, b);
      NormalApart(Rest(a), c, b);
      Glue(Token(a), Normal(Rest(a)), c, Normal(b));
      assert Normal(s) == Token(s) + Normal(Rest(s)) && Normal(a) == Token(a) + Normal(Rest(a));
    }
  }

  lemma {:induction false} NormalKeepsOut(s: string, c: char)
    requires c !in s && c != '%' && !IsHex(c)
    ensures c !in Normal(s)
  {
    if s != [] {
      if EscapeAt(s) { NormalKeepsOut(s[3..], c); } else { NormalKeepsOut(s[1..], c); }
    }
  }

  /** One piece of a query string, with or without `=`. */
  lemma NormalPiece(piece: string)
    requires '&' !in piece
    ensures FormParse(Normal(piece)) == FormParse(piece)
  {
    NormalKeepsOut(piece, '&');
    if '=' in piece {
      var (k, v) := SplitFirst(piece, '=');
      SplitFirstParts(piece, '=');
      ParsePiece(k, v);
      NormalApart(k, '=', v);
      assert k + "=" + v == k + ['='] + v && Normal(k) + "=" + Normal(v) == Normal(k) + ['='] + Normal(v);
      NormalKeepsOut(k, '=');
      NormalKeepsOut(k, '&');
      NormalKeepsOut(v, '&');
      ParsePiece(Normal(k), Normal(v));
      DecodeNormal(k);
      DecodeNormal(v);
    } else if piece != [] {
      NormalHead(piece);
      NormalKeepsOut(piece, '=');
      ParsePiece(piece, "");
      ParsePiece(Normal(piece), "");
      DecodeNormal(piece);
    }
  }

  lemma {:induction false} SplitFirstParts(s: string, c: char)
    requires c in s
    ensures var (a, b) := SplitFirst(s, c); s == a + [c] + b && c !in a
  {
    if s[0] != c {
      SplitFirstParts(s[1..], c);
      assert s == [s[0]] + s[1..];
    } else {
      assert s == [c] + s[1..];
    }
  }

  lemma {:induction false} ParseNormal(q: string)
    ensures FormParse(Normal(q)) == FormParse(q)
    decreases |q|
  {
    if '&' in q {
      var (a, b) := SplitFirst(q, '&');
      SplitFirstParts(q, '&');
      NormalApart(a, '&', b);
      assert a + "&" + b == a + ['&'] + b && Normal(a) + "&" + Normal(b) == Normal(a) + ['&'] + Normal(b);
      ParseConcat(a, b);
      ParseConcat(Normal(a), Normal(b));
      NormalPiece(a);
      ParseNormal(b);
    } else {
      NormalPiece(q);
    }
  }

  /** A space may be written `+` or `%20`, and an escape in either case: the canonical form is the same. */
  lemma CanonicalOfNormal(q: string)
    ensures CanonicalQuery(Normal(q)) == CanonicalQuery(q)
  {
    ParseNormal(q);
    if q != [] {
      NormalHead(q);
    }
  }

  /** Encoded text is its own normal form: escapes in capitals, no plus. */
  lemma {:induction false} EncodedIsNormal(s: string, rest: string)
    requires IsBytes(s)
    ensures Normal(Encode(s, true) + rest) == Encode(s, true) + Normal(rest)
    decreases |s|
  {
    if s == [] {
      assert Encode(s, true) == [] && [] + rest == rest && [] + Normal(rest) == Normal(rest);
    } else {
      var n := |s| - 1;
      var e, front := EncodeByte(s[n], true), Encode(s[..n], true);
      EncodedIsNormal(s[..n], e + rest);
      NormalOfByte(s[n], rest);
      Regroup(front, e, rest);
      Regroup(front, e, Normal(rest));
    }
  }

  lemma NormalOfByte(c: char, rest: string)
    requires IsByte(c)
    ensures Normal(EncodeByte(c, true) + rest) == EncodeByte(c, true) + Normal(rest)
  {
    var e := EncodeByte(c, true);
    var s := e + rest;
    if Unreserved(c) {
      assert s[0] == c && s[1..] == rest;
    } else {
      UpperHexValue(c as int / 16 % 16);
      UpperHexValue(c as int % 16);
      assert EscapeAt(s) && s[3..] == rest;
    }
  }

  lemma {:induction false} EncodeNoSlash(a: string)
    requires '/' !in a
    ensures Encode(a, false) == Encode(a, true)
  {
    if a != [] {
      EncodeNoSlash(a[..|a| - 1]);
    }
  }

  lemma EncodeSnoc(a: string, c: char)
    ensures Encode(a + [c], false) == Encode(a, false) + EncodeByte(c, false)
  {
    assert (a + [c])[..|a|] == a;
  }

  /** With slashes kept, a path is encoded segment by segment. */
  lemma {:induction false} EncodeBySegments(a: string, b: string)
    ensures Encode(a + ['/'] + b, false) == Encode(a, false) + ['/'] + Encode(b, false)
    decreases |b|
  {
    if b == [] {
      assert a + ['/'] + b == a + ['/'];
      EncodeSnoc(a, '/');
    } else {
      var front, c := b[..|b| - 1], b[|b| - 1];
      assert b == front + [c];
      Regroup(a + ['/'], front, [c]);
      EncodeSnoc(a + ['/'] + front, c);
      EncodeSnoc(front, c);
      EncodeBySegments(a, front);
      Regroup(Encode(a, false) + ['/'], Encode(front, false), EncodeByte(c, false));
    }
  }

  /** In a canonical query string keys ascend, and values under one key. */
  lemma CanonicalAscends(ps: seq<Pair>, i: nat, j: nat)
    requires i < j < |Sort(EncodeAll(ps))|
    ensures var p, q := Sort(EncodeAll(ps))[i], Sort(EncodeAll(ps))[j];
      Less(p.0, q.0) || (p.0 == q.0 && (p.1 == q.1 || Less(p.1, q.1)))
  {
    SortSorted(EncodeAll(ps));
    assert PairLeq(Sort(EncodeAll(ps))[i], Sort(EncodeAll(ps))[j]);
  }
}
