// What a signature binds: two requests carry the same signature exactly when
// they agree on everything that was signed, unless a hash collides on them.
module Binding {
  import opened Text
  import opened Order
  import opened SigV4

  /** The hash tells these two inputs apart, if they differ. */
  predicate NoClash(f: string -> string, x: string, y: string) {
    f(x) == f(y) ==> x == y
  }

  /** A MAC is never the empty string. */
  ghost predicate Sound(c: Crypto) {
    forall k, m :: c.hmac(k, m) != []
  }

  ghost predicate Bytewise(c: Crypto) {
    && (forall x :: IsBytes(c.sha256(x)))
    && (forall k, x :: IsBytes(c.hmac(k, x)))
  }

  predicate OneLine(s: string) {
    '\n' !in s
  }

  lemma NoLaterBreak(b: string, r: string, k: nat)
    requires OneLine(r) && k < |b + "\n" + r| && (b + "\n" + r)[k] == '\n'
    ensures k <= |b|
  {
    var x := b + "\n" + r;
    assert forall i :: |b| < i < |x| ==> x[i] == r[i - |b| - 1];
  }

  lemma LastLine(a: string, p: string, b: string, r: string)
    requires a + "\n" + p == b + "\n" + r && OneLine(p) && OneLine(r)
    ensures a == b && p == r
  {
    var x, y := a + "\n" + p, b + "\n" + r;
    assert x[|a|] == '\n' && y[|b|] == '\n';
    NoLaterBreak(b, r, |a|);
    NoLaterBreak(a, p, |b|);
    assert x[..|a|] == a && y[..|b|] == b && x[|a| + 1..] == p && y[|b| + 1..] == r;
  }

  lemma FirstLine(p: string, a: string, r: string, b: string)
    requires p + "\n" + a == r + "\n" + b && OneLine(p) && OneLine(r)
    ensures p == r && a == b
  {
    assert p + "\n" + a == p + ['\n'] + a && r + "\n" + b == r + ['\n'] + b;
    SplitFirstAt(p, a, '\n');
    SplitFirstAt(r, b, '\n');
  }

  lemma RequestTextInjective(verb: string, path: string, query: string, block: string, payload: string,
                             verb': string, path': string, query': string, block': string, payload': string, names: string)
    requires OneLine(verb) && OneLine(path) && OneLine(query) && OneLine(payload)
    requires OneLine(verb') && OneLine(path') && OneLine(query') && OneLine(payload')
    requires RequestText(verb, path, query, block, names, payload) == RequestText(verb', path', query', block', names, payload')
    ensures verb == verb' && CanonicalUri(path) == CanonicalUri(path') && query == query' && block == block' && payload == payload'
  {
    var t3, t3' := block + "\n" + names + "\n" + payload, block' + "\n" + names + "\n" + payload';
    var t2, t2' := query + "\n" + t3, query' + "\n" + t3';
    FirstLine(verb, CanonicalUri(path) + "\n" + t2, verb', CanonicalUri(path') + "\n" + t2');
    FirstLine(CanonicalUri(path), t2, CanonicalUri(path'), t2');
    FirstLine(query, t3, query', t3');
    LastLine(block + "\n" + names, payload, block' + "\n" + names, payload');
    assert (block + "\n" + names)[..|block|] == block && (block' + "\n" + names)[..|block'|] == block';
  }

  /** The string to sign has four lines, in the standard's order. */
  lemma StringToSignReads(datetime: string, scope: string, hash: string)
    requires OneLine(datetime) && OneLine(scope) && OneLine(hash)
    ensures Split(StringToSign(datetime, scope, hash), '\n') == ["AWS4-HMAC-SHA256", datetime, scope, hash]
  {
    FourLines("AWS4-HMAC-SHA256", datetime, scope, hash);
    assert "AWS4-HMAC-SHA256\n" == "AWS4-HMAC-SHA256" + "\n";
  }

  lemma FourLines(a: string, b: string, c: string, d: string)
    requires OneLine(a) && OneLine(b) && OneLine(c) && OneLine(d)
    ensures Split(a + "\n" + b + "\n" + c + "\n" + d, '\n') == [a, b, c, d]
  {
    Slide(a + "\n", b, c);
    Slide(a + "\n", b + "\n" + c, d);
    Slide(b + "\n", c, d);
    OneLineThen(a, b + "\n" + (c + "\n" + d));
    OneLineThen(b, c + "\n" + d);
    OneLineThen(c, d);
    SplitPlain(d, '\n');
  }

  lemma OneLineThen(line: string, rest: string)
    requires OneLine(line)
    ensures Split(line + "\n" + rest, '\n') == [line] + Split(rest, '\n')
  {
    SplitHead(line, rest, '\n');
    assert line + "\n" + rest == line + ['\n'] + rest;
  }

  lemma SameHash(c: Crypto, r: Request, q: Request, names: seq<string>, s: Scope)
    requires Bytewise(c) && Signature(c, r, names, s) == Signature(c, q, names, s)
    requires NoClash(c.sha256, TextOf(r, names), TextOf(q, names))
    requires NoClash(m => c.hmac(KeyOf(c, s), m), ToSign(c, r, names, s), ToSign(c, q, names, s))
    ensures TextOf(r, names) == TextOf(q, names)
  {
    var key := KeyOf(c, s);
    HexInjective(c.hmac(key, ToSign(c, r, names, s)), c.hmac(key, ToSign(c, q, names, s)));
    var h, h' := HexSha256(c, TextOf(r, names)), HexSha256(c, TextOf(q, names));
    var front := "AWS4-HMAC-SHA256\n" + s.datetime + "\n" + ScopeText(s.date, s.region, s.service) + "\n";
    assert (front + h)[|front|..] == h && (front + h')[|front|..] == h';
    HexInjective(c.sha256(TextOf(r, names)), c.sha256(TextOf(q, names)));
  }

  predicate OneLineRequest(r: Request) {
    OneLine(r.verb) && OneLine(r.path) && OneLine(r.query) && OneLine(r.payload)
  }

  // ----- the header block -----

  /** Header names and values as HTTP allows them. */
  predicate Token(n: string) {
    ':' !in n && OneLine(n)
  }

  predicate LineHeaders(hs: seq<Header>) {
    forall i :: 0 <= i < |hs| ==> Token(hs[i].0) && OneLine(hs[i].1)
  }

  lemma LinesAppend(hs: seq<Header>, h: Header)
    ensures Lines(hs + [h]) == Lines(hs) + (Line(h) + "\n")
  {
    assert (hs + [h])[..|hs|] == hs;
  }

  lemma LinesOne(h: Header)
    ensures Lines([h]) == Line(h) + "\n" + Lines([])
  {
    LinesAppend([], h);
    assert [] + [h] == [h];
  }

  lemma LinesStep(front: seq<Header>, last: Header)
    requires front != [] && Lines(front) == Line(front[0]) + "\n" + Lines(front[1..])
    ensures Lines(front + [last]) == Line(front[0]) + "\n" + Lines(front[1..] + [last])
  {
    LinesAppend(front, last);
    LinesAppend(front[1..], last);
    Regroup(Line(front[0]) + "\n", Lines(front[1..]), Line(last) + "\n");
  }

  lemma {:induction false} LinesFront(hs: seq<Header>)
    requires hs != []
    ensures Lines(hs) == Line(hs[0]) + "\n" + Lines(hs[1..])
  {
    if |hs| == 1 {
      assert hs == [hs[0]] && hs[1..] == [];
      LinesOne(hs[0]);
    } else {
      var front, last := hs[..|hs| - 1], hs[|hs| - 1];
      assert hs == front + [last] && hs[1..] == front[1..] + [last];
      LinesFront(front);
      LinesStep(front, last);
    }
  }

  /** The block determines the lines it was written from. */
  lemma {:induction false} LinesInjective(a: seq<Header>, b: seq<Header>)
    requires LineHeaders(a) && LineHeaders(b) && Lines(a) == Lines(b)
    ensures a == b
  {
    if a != [] { LinesFront(a); }
    if b != [] { LinesFront(b); }
    if a != [] && b != [] {
      var x, y := Line(a[0]), Line(b[0]);
      FirstLine(x, Lines(a[1..]), y, Lines(b[1..]));
      SplitFirstAt(a[0].0, a[0].1, ':');
      SplitFirstAt(b[0].0, b[0].1, ':');
      assert x == a[0].0 + [':'] + a[0].1 && y == b[0].0 + [':'] + b[0].1;
      LinesInjective(a[1..], b[1..]);
      assert a == [a[0]] + a[1..] && b == [b[0]] + b[1..];
    }
  }

  /** The entries of one name, in order. */
  function OfName(hs: seq<Header>, n: string): seq<Header> {
    if hs == [] then [] else (if hs[0].0 == n then [hs[0]] else []) + OfName(hs[1..], n)
  }

  lemma {:induction false} OfNameConcat(a: seq<Header>, b: seq<Header>, n: string)
    ensures OfName(a + b, n) == OfName(a, n) + OfName(b, n)
  {
    if a == [] {
      assert a + b == b;
    } else {
      assert (a + b)[0] == a[0] && (a + b)[1..] == a[1..] + b;
      OfNameConcat(a[1..], b, n);
      var h := if a[0].0 == n then [a[0]] else [];
      assert h + (OfName(a[1..], n) + OfName(b, n)) == (h + OfName(a[1..], n)) + OfName(b, n);
    }
  }

  lemma {:induction false} OfNameInsert(h: Header, hs: seq<Header>, n: string)
    ensures OfName(InsertByName(h, hs), n) == OfName([h] + hs, n)
  {
    assert ([h] + hs)[1..] == hs;
    if hs != [] && Less(hs[0].0, h.0) {
      LessAsymmetric(hs[0].0, h.0);
      var r := InsertByName(h, hs[1..]);
      assert ([hs[0]] + r)[1..] == r;
      OfNameInsert(h, hs[1..], n);
      assert ([h] + hs[1..])[1..] == hs[1..];
    }
  }

  /** Sorting is stable: it keeps the order of the values of one name. */
  lemma {:induction false} OfNameSorted(hs: seq<Header>, n: string)
    ensures OfName(SortByName(hs), n) == OfName(hs, n)
  {
    if hs != [] {
      OfNameSorted(hs[1..], n);
      OfNameInsert(hs[0], SortByName(hs[1..]), n);
      assert ([hs[0]] + SortByName(hs[1..]))[1..] == SortByName(hs[1..]);
    }
  }

  lemma {:induction false} OfNameValues(headers: seq<Header>, lower: string, n: string)
    ensures OfName(ValuesOf(headers, lower), n) == if lower == n then ValuesOf(headers, lower) else []
  {
    if headers != [] {
      var front, last := headers[..|headers| - 1], headers[|headers| - 1];
      OfNameValues(front, lower, n);
      var tail := if Lower(last.0) == lower then [(lower, HeaderValue(last.1))] else [];
      OfNameConcat(ValuesOf(front, lower), tail, n);
      assert OfName(tail, n) == if lower == n then tail else [];
    }
  }

  /** Lower-case names, each once. */
  predicate DistinctNames(names: seq<string>) {
    && (forall i :: 0 <= i < |names| ==> Lower(names[i]) == names[i])
    && (forall i, j :: 0 <= i < j < |names| ==> names[i] != names[j])
  }

  lemma {:induction false} OfNameSelected(headers: seq<Header>, names: seq<string>, n: string)
    requires DistinctNames(names)
    ensures OfName(Selected(headers, names), n) == if n in names then ValuesOf(headers, n) else []
  {
    if names != [] {
      var front, last := names[..|names| - 1], names[|names| - 1];
      OfNameSelected(headers, front, n);
      OfNameConcat(Selected(headers, front), ValuesOf(headers, last), n);
      OfNameValues(headers, last, n);
      assert n in names <==> n in front || n == last;
    }
  }

  /** Every signed name carries the same canonical values in the same order. */
  ghost predicate SameValues(a: seq<Header>, b: seq<Header>, names: seq<string>) {
    forall n :: n in names ==> ValuesOf(a, n) == ValuesOf(b, n)
  }

  lemma {:induction false} SelectedSame(a: seq<Header>, b: seq<Header>, names: seq<string>)
    requires DistinctNames(names) && SameValues(a, b, names)
    ensures Selected(a, names) == Selected(b, names)
  {
    if names != [] {
      SelectedSame(a, b, names[..|names| - 1]);
      assert names[|names| - 1] in names;
    }
  }

  lemma {:induction false} CollapseKeeps(s: string, after: bool)
    requires OneLine(s)
    ensures OneLine(Collapse(s, after))
  {
    if s != [] {
      CollapseKeeps(s[1..], s[0] == ' ');
    }
  }

  predicate OneLineValues(headers: seq<Header>) {
    forall i :: 0 <= i < |headers| ==> OneLine(headers[i].1)
  }

  lemma {:induction false} ValuesLines(headers: seq<Header>, lower: string)
    requires OneLineValues(headers) && Token(lower)
    ensures LineHeaders(ValuesOf(headers, lower))
  {
    if headers != [] {
      ValuesLines(headers[..|headers| - 1], lower);
      var v := headers[|headers| - 1].1;
      TrimKeeps(v, '\n');
      CollapseKeeps(Trim(v), false);
    }
  }

  lemma {:induction false} SelectedLines(headers: seq<Header>, names: seq<string>)
    requires OneLineValues(headers) && forall i :: 0 <= i < |names| ==> Token(names[i]) && Lower(names[i]) == names[i]
    ensures LineHeaders(Selected(headers, names))
  {
    if names != [] {
      SelectedLines(headers, names[..|names| - 1]);
      ValuesLines(headers, names[|names| - 1]);
    }
  }

  lemma {:induction false} InsertLines(h: Header, hs: seq<Header>)
    requires Token(h.0) && OneLine(h.1) && LineHeaders(hs)
    ensures LineHeaders(InsertByName(h, hs))
  {
    if hs != [] && Less(hs[0].0, h.0) {
      InsertLines(h, hs[1..]);
    }
  }

  lemma {:induction false} SortLines(hs: seq<Header>)
    requires LineHeaders(hs)
    ensures LineHeaders(SortByName(hs))
  {
    if hs != [] {
      SortLines(hs[1..]);
      InsertLines(hs[0], SortByName(hs[1..]));
    }
  }

  /** Names a header block can be read back for. */
  predicate SignableNames(names: seq<string>) {
    DistinctNames(names) && forall i :: 0 <= i < |names| ==> Token(names[i])
  }

  /** The header block is the same exactly when every signed name has the same values. */
  lemma BlockBinds(a: seq<Header>, b: seq<Header>, names: seq<string>)
    requires SignableNames(names) && OneLineValues(a) && OneLineValues(b)
    ensures HeaderBlock(a, names) == HeaderBlock(b, names) <==> SameValues(a, b, names)
  {
    if HeaderBlock(a, names) == HeaderBlock(b, names) {
      var x, y := Selected(a, names), Selected(b, names);
      SelectedLines(a, names);
      SelectedLines(b, names);
      SortLines(x);
      SortLines(y);
      LinesInjective(SortByName(x), SortByName(y));
      forall n | n in names ensures ValuesOf(a, n) == ValuesOf(b, n) {
        OfNameSorted(x, n);
        OfNameSorted(y, n);
        OfNameSelected(a, names, n);
        OfNameSelected(b, names, n);
      }
    } else if SameValues(a, b, names) {
      SelectedSame(a, b, names);
    }
  }

  /** The two requests agree on everything the signature covers. */
  ghost predicate SameSigned(r: Request, q: Request, names: seq<string>) {
    && r.verb == q.verb && CanonicalUri(r.path) == CanonicalUri(q.path) && r.query == q.query
    && r.payload == q.payload && SameValues(r.headers, q.headers, names)
  }

  /** The hashes do not collide on the texts of these two requests. */
  predicate Distinguished(c: Crypto, r: Request, q: Request, names: seq<string>, s: Scope) {
    && NoClash(c.sha256, TextOf(r, names), TextOf(q, names))
    && NoClash(m => c.hmac(KeyOf(c, s), m), ToSign(c, r, names, s), ToSign(c, q, names, s))
  }

  /** Agreement is enough for one signature, whatever the hashes do. */
  lemma SameSignedSuffices(c: Crypto, r: Request, q: Request, names: seq<string>, s: Scope)
    requires DistinctNames(names) && SameSigned(r, q, names)
    ensures Signature(c, r, names, s) == Signature(c, q, names, s)
  {
    SelectedSame(r.headers, q.headers, names);
  }

  /** One signature for both requests, exactly when they agree on all that is signed. */
  lemma SignatureBinds(c: Crypto, r: Request, q: Request, names: seq<string>, s: Scope)
    requires Bytewise(c) && Distinguished(c, r, q, names, s) && SignableNames(names)
    requires OneLineRequest(r) && OneLineRequest(q) && OneLineValues(r.headers) && OneLineValues(q.headers)
    ensures Signature(c, r, names, s) == Signature(c, q, names, s) <==> SameSigned(r, q, names)
  {
    BlockBinds(r.headers, q.headers, names);
    if Signature(c, r, names, s) == Signature(c, q, names, s) {
      SameHash(c, r, q, names, s);
      RequestTextInjective(r.verb, r.path, r.query, HeaderBlock(r.headers, names), r.payload,
                           q.verb, q.path, q.query, HeaderBlock(q.headers, names), q.payload, NamesText(names));
    }
  }

  // ----- the canonical request, line by line -----

  function LineList(hs: seq<Header>): (r: seq<string>)
    ensures |r| == |hs| && forall i :: 0 <= i < |hs| ==> r[i] == hs[i].0 + ":" + hs[i].1
  {
    seq(|hs|, i requires 0 <= i < |hs| => hs[i].0 + ":" + hs[i].1)
  }

  lemma {:induction false} LinesThen(hs: seq<Header>, rest: string)
    requires LineHeaders(hs)
    ensures Split(Lines(hs) + rest, '\n') == LineList(hs) + Split(rest, '\n')
  {
    if hs == [] {
      assert hs == [] && Lines([]) == "" && "" + rest == rest && LineList([]) == [];
    } else {
      LinesThen(hs[1..], rest);
      FirstLineThen(hs, rest);
      LineListFront(hs);
      assert [Line(hs[0])] + (LineList(hs[1..]) + Split(rest, '\n')) == ([Line(hs[0])] + LineList(hs[1..])) + Split(rest, '\n');
    }
  }

  lemma FirstLineThen(hs: seq<Header>, rest: string)
    requires LineHeaders(hs) && hs != []
    ensures Split(Lines(hs) + rest, '\n') == [Line(hs[0])] + Split(Lines(hs[1..]) + rest, '\n')
  {
    LinesFront(hs);
    Regroup(Line(hs[0]) + "\n", Lines(hs[1..]), rest);
    OneLineThen(Line(hs[0]), Lines(hs[1..]) + rest);
  }

  lemma LineListFront(hs: seq<Header>)
    requires hs != []
    ensures LineList(hs) == [Line(hs[0])] + LineList(hs[1..])
  {
  }

  lemma NamesTextOneLine(names: seq<string>)
    requires forall i :: 0 <= i < |names| ==> OneLine(names[i])
    ensures OneLine(NamesText(names))
  {
    SortNamesAscending(names);
    forall i | 0 <= i < |SortNames(names)| ensures OneLine(SortNames(names)[i]) {
      assert SortNames(names)[i] in names;
    }
    JoinFree(SortNames(names), ';', '\n');
  }

  /** Block, empty line, names and payload. */
  lemma TailReads(hs: seq<Header>, names: string, payload: string)
    requires LineHeaders(hs) && OneLine(names) && OneLine(payload)
    ensures Split(Lines(hs) + "\n" + names + "\n" + payload, '\n') == LineList(hs) + ["", names, payload]
  {
    Slide(Lines(hs) + "\n", names, payload);
    Regroup(Lines(hs), "\n", names + "\n" + payload);
    LinesThen(hs, "\n" + (names + "\n" + payload));
    OneLineThen("", names + "\n" + payload);
    assert "" + "\n" + (names + "\n" + payload) == "\n" + (names + "\n" + payload);
    OneLineThen(names, payload);
    SplitPlain(payload, '\n');
  }

  /**
   * The canonical request has the standard's lines in order: method, path, query,
   * the signed headers, an empty line, their names, the payload hash.
   */
  lemma RequestReads(r: Request, names: seq<string>)
    requires OneLineRequest(r) && SignableNames(names) && OneLineValues(r.headers)
    ensures Split(TextOf(r, names), '\n') ==
      [r.verb, if r.path == "" then "/" else r.path, r.query]
      + LineList(SortByName(Selected(r.headers, names))) + ["", NamesText(names), r.payload]
  {
    var hs := SortByName(Selected(r.headers, names));
    SelectedLines(r.headers, names);
    SortLines(Selected(r.headers, names));
    NamesTextOneLine(names);
    TailReads(hs, NamesText(names), r.payload);
    ThreeLinesThen(r.verb, CanonicalUri(r.path), r.query, Lines(hs) + "\n" + NamesText(names) + "\n" + r.payload);
    var head, tail := [r.verb, CanonicalUri(r.path), r.query], ["", NamesText(names), r.payload];
    assert head + (LineList(hs) + tail) == head + LineList(hs) + tail;
  }

  lemma ThreeLinesThen(a: string, b: string, c: string, tail: string)
    requires OneLine(a) && OneLine(b) && OneLine(c)
    ensures Split(a + "\n" + (b + "\n" + (c + "\n" + tail)), '\n') == [a, b, c] + Split(tail, '\n')
  {
    OneLineThen(c, tail);
    OneLineThen(b, c + "\n" + tail);
    OneLineThen(a, b + "\n" + (c + "\n" + tail));
  }

  /** The string to sign carries the instant, the scope from date to marker, and the hash of the request. */
  lemma ToSignReads(c: Crypto, r: Request, names: seq<string>, s: Scope)
    requires OneLine(s.datetime) && OneLine(s.date) && OneLine(s.region) && OneLine(s.service)
    ensures Split(ToSign(c, r, names, s), '\n') ==
      ["AWS4-HMAC-SHA256", s.datetime, s.date + "/" + s.region + "/" + s.service + "/" + "aws4_request", HexSha256(c, TextOf(r, names))]
  {
    var parts := [s.date, s.region, s.service, "aws4_request"];
    JoinFree(parts, '/', '\n');
    ScopeFlat(s.date, s.region, s.service, "aws4_request");
    StringToSignReads(s.datetime, ScopeText(s.date, s.region, s.service), HexSha256(c, TextOf(r, names)));
  }

  lemma ScopeFlat(a: string, b: string, c: string, d: string)
    ensures Join([a, b, c, d], '/') == a + "/" + b + "/" + c + "/" + d
  {
    JoinSnoc([a], b, '/');
    JoinSnoc([a, b], c, '/');
    JoinSnoc([a, b, c], d, '/');
    assert [a] + [b] == [a, b] && [a, b] + [c] == [a, b, c] && [a, b, c] + [d] == [a, b, c, d];
  }
}
