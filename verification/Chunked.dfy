// The signature chain of an aws-chunked upload: every chunk, and the trailer,
// carries a signature over its content and the signature before it.
module Chunked {
  import opened Text
  import opened SigV4
  import opened AuthParse
  import opened Binding

  /** What stays fixed over one upload. */
  datatype Upload = Upload(c: Crypto, key: string, datetime: string, scope: string)

  /** A chunk, known by the hex SHA-256 of its data, or the canonical trailer headers. */
  datatype Element = Chunk(sha: string) | Trailer(headers: string)

  const PAYLOAD := "AWS4-HMAC-SHA256-PAYLOAD\n"
  const TRAILER := "AWS4-HMAC-SHA256-TRAILER\n"

  function Front(u: Upload, kind: string): string {
    kind + (u.datetime + "\n" + u.scope + "\n")
  }

  function ElementText(u: Upload, previous: string, e: Element): string {
    match e
    case Chunk(sha) => Front(u, PAYLOAD) + (previous + "\n" + (HexSha256(u.c, "") + "\n" + sha))
    case Trailer(headers) => Front(u, TRAILER) + (previous + "\n" + HexSha256(u.c, headers))
  }

  /** The signature the next element must carry. */
  function Expected(u: Upload, previous: string, e: Element): string {
    ComputeSignature(u.c, u.key, ElementText(u, previous, e))
  }

  /** One call of the verifier: an element and the signature it came with. */
  datatype Call = Call(element: Element, signature: string)

  function Step(u: Upload, previous: string, call: Call): string {
    if call.signature == Expected(u, previous, call.element) then call.signature else previous
  }

  class ChunkVerifier {
    const upload: Upload
    var previousSignature: string

    constructor (c: Crypto, secret: string, auth: ParsedAuth, datetime: string)
      ensures upload == Upload(c, SigningKey(c, secret, auth.date, auth.region, auth.service), datetime,
                               ScopeText(auth.date, auth.region, auth.service))
      ensures previousSignature == auth.signature
    {
      upload := Upload(c, SigningKey(c, secret, auth.date, auth.region, auth.service), datetime,
                       ScopeText(auth.date, auth.region, auth.service));
      previousSignature := auth.signature;
    }

    /** Checks the next chunk; on failure the chain does not advance. */
    method VerifyChunk(sha: string, signature: string) returns (ok: bool)
      modifies this
      ensures ok <==> signature == Expected(upload, old(previousSignature), Chunk(sha))
      ensures previousSignature == Step(upload, old(previousSignature), Call(Chunk(sha), signature))
    {
      var expected := Expected(upload, previousSignature, Chunk(sha));
      ok := Advance(expected, signature);
    }

    method VerifyTrailer(headers: string, signature: string) returns (ok: bool)
      modifies this
      ensures ok <==> signature == Expected(upload, old(previousSignature), Trailer(headers))
      ensures previousSignature == Step(upload, old(previousSignature), Call(Trailer(headers), signature))
    {
      var expected := Expected(upload, previousSignature, Trailer(headers));
      ok := Advance(expected, signature);
    }

    method Advance(expected: string, provided: string) returns (ok: bool)
      modifies this
      ensures ok <==> expected == provided
      ensures previousSignature == if ok then expected else old(previousSignature)
    {
      ok := expected == provided;
      if ok {
        previousSignature := expected;
      }
    }
  }

  // ----- whole uploads -----

  /** The stored signature after a sequence of calls. */
  function Stored(u: Upload, seed: string, calls: seq<Call>): string {
    if calls == [] then seed
    else Step(u, Stored(u, seed, calls[..|calls| - 1]), calls[|calls| - 1])
  }

  /** The elements whose calls succeeded, in order. */
  function Accepted(u: Upload, seed: string, calls: seq<Call>): seq<Element> {
    if calls == [] then []
    else
      var n := |calls| - 1;
      Accepted(u, seed, calls[..n])
      + if calls[n].signature == Expected(u, Stored(u, seed, calls[..n]), calls[n].element) then [calls[n].element] else []
  }

  /** The signature a chain of elements ends in, each signed over the one before. */
  function Link(u: Upload, seed: string, es: seq<Element>): string {
    if es == [] then seed else Expected(u, Link(u, seed, es[..|es| - 1]), es[|es| - 1])
  }

  /** The signatures an honest sender attaches. */
  function Signed(u: Upload, seed: string, es: seq<Element>): seq<Call> {
    if es == [] then []
    else Signed(u, seed, es[..|es| - 1]) + [Call(es[|es| - 1], Link(u, seed, es))]
  }

  /** Rejected calls leave no trace: the state is the chain over what was accepted. */
  lemma {:induction false} StoredIsChain(u: Upload, seed: string, calls: seq<Call>)
    ensures Stored(u, seed, calls) == Link(u, seed, Accepted(u, seed, calls))
  {
    if calls != [] {
      var n := |calls| - 1;
      StoredIsChain(u, seed, calls[..n]);
      var front := Accepted(u, seed, calls[..n]);
      if calls[n].signature == Expected(u, Stored(u, seed, calls[..n]), calls[n].element) {
        assert Accepted(u, seed, calls) == front + [calls[n].element];
        assert (front + [calls[n].element])[..|front|] == front;
      } else {
        assert Accepted(u, seed, calls) == front;
      }
    }
  }

  /** One more call, with the expected signature. */
  lemma GoodCall(u: Upload, seed: string, calls: seq<Call>, e: Element)
    ensures var call := Call(e, Expected(u, Stored(u, seed, calls), e));
      && Stored(u, seed, calls + [call]) == call.signature
      && Accepted(u, seed, calls + [call]) == Accepted(u, seed, calls) + [e]
  {
    var call := Call(e, Expected(u, Stored(u, seed, calls), e));
    assert (calls + [call])[..|calls|] == calls;
  }

  /** The signed elements are accepted, and the state is their chain. */
  predicate Honoured(u: Upload, seed: string, es: seq<Element>, calls: seq<Call>) {
    Accepted(u, seed, calls) == es && Stored(u, seed, calls) == Link(u, seed, es)
  }

  lemma SignedSnoc(u: Upload, seed: string, es: seq<Element>, e: Element)
    ensures Link(u, seed, es + [e]) == Expected(u, Link(u, seed, es), e)
    ensures Signed(u, seed, es + [e]) == Signed(u, seed, es) + [Call(e, Expected(u, Link(u, seed, es), e))]
  {
    assert (es + [e])[..|es|] == es;
  }

  lemma HonestStep(u: Upload, seed: string, es: seq<Element>, e: Element)
    requires Honoured(u, seed, es, Signed(u, seed, es))
    ensures Honoured(u, seed, es + [e], Signed(u, seed, es + [e]))
  {
    SignedSnoc(u, seed, es, e);
    GoodCall(u, seed, Signed(u, seed, es), e);
  }

  /** An honestly signed upload is accepted whole. */
  lemma {:induction false} HonestAccepted(u: Upload, seed: string, es: seq<Element>)
    ensures Honoured(u, seed, es, Signed(u, seed, es))
  {
    if es == [] {
      assert Signed(u, seed, []) == [];
      assert Honoured(u, seed, [], []);
    } else {
      var front, e := es[..|es| - 1], es[|es| - 1];
      assert es == front + [e];
      HonestAccepted(u, seed, front);
      HonestStep(u, seed, front, e);
    }
  }

  // ----- the signed texts, line by line -----

  /** A chunk's text: the kind, the instant, the scope, the signature before it, the empty hash, its own hash. */
  lemma ChunkTextReads(u: Upload, previous: string, sha: string)
    requires OneLine(u.datetime) && OneLine(u.scope) && OneLine(previous) && OneLine(sha)
    ensures Split(ElementText(u, previous, Chunk(sha)), '\n') ==
      ["AWS4-HMAC-SHA256-PAYLOAD", u.datetime, u.scope, previous, HexSha256(u.c, ""), sha]
  {
    var tail := previous + "\n" + (HexSha256(u.c, "") + "\n" + sha);
    FrontReads(u, "AWS4-HMAC-SHA256-PAYLOAD", PAYLOAD, tail);
    OneLineThen(previous, HexSha256(u.c, "") + "\n" + sha);
    OneLineThen(HexSha256(u.c, ""), sha);
    SplitPlain(sha, '\n');
  }

  lemma TrailerTextReads(u: Upload, previous: string, headers: string)
    requires OneLine(u.datetime) && OneLine(u.scope) && OneLine(previous)
    ensures Split(ElementText(u, previous, Trailer(headers)), '\n') ==
      ["AWS4-HMAC-SHA256-TRAILER", u.datetime, u.scope, previous, HexSha256(u.c, headers)]
  {
    FrontReads(u, "AWS4-HMAC-SHA256-TRAILER", TRAILER, previous + "\n" + HexSha256(u.c, headers));
    OneLineThen(previous, HexSha256(u.c, headers));
    SplitPlain(HexSha256(u.c, headers), '\n');
  }

  lemma FrontReads(u: Upload, kind: string, kindLine: string, tail: string)
    requires OneLine(kind) && kindLine == kind + "\n" && OneLine(u.datetime) && OneLine(u.scope)
    ensures Split(Front(u, kindLine) + tail, '\n') == [kind, u.datetime, u.scope] + Split(tail, '\n')
  {
    ThreeLinesThen(kind, u.datetime, u.scope, tail);
    FrontNested(kind + "\n", u.datetime, u.scope, "\n", tail);
  }

  lemma FrontNested(kindLine: string, datetime: string, scope: string, nl: string, tail: string)
    ensures kindLine + (datetime + nl + scope + nl) + tail == kindLine + (datetime + nl + (scope + nl + tail))
  {
    Regroup(kindLine, datetime + nl + scope + nl, tail);
    Regroup(datetime + nl, scope + nl, tail);
    Regroup(datetime + nl, scope, nl);
  }

  // ----- binding -----

  lemma SameTail(front: string, x: string, y: string)
    requires front + x == front + y
    ensures x == y
  {
    assert (front + x)[|front|..] == x && (front + y)[|front|..] == y;
  }

  lemma KindsDiffer(u: Upload, x: string, y: string)
    ensures Front(u, PAYLOAD) + x != Front(u, TRAILER) + y
  {
    assert (Front(u, PAYLOAD) + x)[17] == PAYLOAD[17] && (Front(u, TRAILER) + y)[17] == TRAILER[17];
  }

  /** The hashes do not collide on these two elements. */
  predicate Apart(u: Upload, p: string, e: Element, r: string, f: Element) {
    && NoClash(m => u.c.hmac(u.key, m), ElementText(u, p, e), ElementText(u, r, f))
    && (e.Trailer? && f.Trailer? ==> NoClash(u.c.sha256, e.headers, f.headers))
  }

  /** One signature binds the element and the signature before it. */
  lemma SignatureBindsElement(u: Upload, p: string, e: Element, r: string, f: Element)
    requires Bytewise(u.c) && OneLine(p) && OneLine(r) && Apart(u, p, e, r, f)
    requires Expected(u, p, e) == Expected(u, r, f)
    ensures p == r && e == f
  {
    HexInjective(u.c.hmac(u.key, ElementText(u, p, e)), u.c.hmac(u.key, ElementText(u, r, f)));
    match (e, f) {
      case (Chunk(s), Chunk(t)) =>
        var h := HexSha256(u.c, "") + "\n";
        SameTail(Front(u, PAYLOAD), p + "\n" + (h + s), r + "\n" + (h + t));
        FirstLine(p, h + s, r, h + t);
        SameTail(h, s, t);
      case (Trailer(s), Trailer(t)) =>
        SameTail(Front(u, TRAILER), p + "\n" + HexSha256(u.c, s), r + "\n" + HexSha256(u.c, t));
        FirstLine(p, HexSha256(u.c, s), r, HexSha256(u.c, t));
        HexInjective(u.c.sha256(s), u.c.sha256(t));
      case (Chunk(s), Trailer(t)) =>
        KindsDiffer(u, p + "\n" + (HexSha256(u.c, "") + "\n" + s), r + "\n" + HexSha256(u.c, t));
      case (Trailer(s), Chunk(t)) =>
        KindsDiffer(u, r + "\n" + (HexSha256(u.c, "") + "\n" + t), p + "\n" + HexSha256(u.c, s));
    }
  }

  lemma LinkOneLine(u: Upload, seed: string, es: seq<Element>)
    requires OneLine(seed)
    ensures OneLine(Link(u, seed, es))
  {
  }

  predicate ApartAt(u: Upload, seed: string, a: seq<Element>, b: seq<Element>, i: nat, j: nat)
    requires i < |a| && j < |b|
  {
    Apart(u, Link(u, seed, a[..i]), a[i], Link(u, seed, b[..j]), b[j])
  }

  predicate AllApart(u: Upload, seed: string, a: seq<Element>, b: seq<Element>) {
    forall i, j {:trigger ApartAt(u, seed, a, b, i, j)} :: 0 <= i < |a| && 0 <= j < |b| ==> ApartAt(u, seed, a, b, i, j)
  }

  lemma ApartPrefix(u: Upload, seed: string, a: seq<Element>, b: seq<Element>)
    requires a != [] && b != [] && AllApart(u, seed, a, b)
    ensures AllApart(u, seed, a[..|a| - 1], b[..|b| - 1])
  {
    var x, y := a[..|a| - 1], b[..|b| - 1];
    forall i, j | 0 <= i < |x| && 0 <= j < |y| ensures ApartAt(u, seed, x, y, i, j) {
      assert ApartAt(u, seed, a, b, i, j);
      assert x[..i] == a[..i] && y[..j] == b[..j];
    }
  }

  /** Chains that end alike end in the same element, over chains that end alike. */
  lemma LastLinkBinds(u: Upload, seed: string, a: seq<Element>, b: seq<Element>)
    requires Bytewise(u.c) && OneLine(seed) && a != [] && b != [] && AllApart(u, seed, a, b)
    requires Link(u, seed, a) == Link(u, seed, b)
    ensures a[|a| - 1] == b[|b| - 1] && Link(u, seed, a[..|a| - 1]) == Link(u, seed, b[..|b| - 1])
  {
    var n, m := |a| - 1, |b| - 1;
    LinkOneLine(u, seed, a[..n]);
    LinkOneLine(u, seed, b[..m]);
    assert ApartAt(u, seed, a, b, n, m);
    SignatureBindsElement(u, Link(u, seed, a[..n]), a[n], Link(u, seed, b[..m]), b[m]);
  }

  /** The two chains without their last elements. */
  lemma UnlinkLast(u: Upload, seed: string, a: seq<Element>, b: seq<Element>) returns (x: seq<Element>, y: seq<Element>)
    requires Bytewise(u.c) && OneLine(seed) && a != [] && |a| <= |b| && AllApart(u, seed, a, b)
    requires Link(u, seed, a) == Link(u, seed, b)
    ensures x == a[..|a| - 1] && y == b[..|b| - 1] && |y| - |x| == |b| - |a|
    ensures a[|a| - 1] == b[|b| - 1] && AllApart(u, seed, x, y) && Link(u, seed, x) == Link(u, seed, y)
  {
    x, y := a[..|a| - 1], b[..|b| - 1];
    LastLinkBinds(u, seed, a, b);
    ApartPrefix(u, seed, a, b);
  }

  lemma SuffixGrows(a: seq<Element>, b: seq<Element>)
    requires 0 < |a| <= |b| && b[..|b| - 1][|b| - |a|..] == a[..|a| - 1] && a[|a| - 1] == b[|b| - 1]
    ensures b[|b| - |a|..] == a && b[..|b| - 1][..|b| - |a|] == b[..|b| - |a|]
  {
    assert b[|b| - |a|..] == b[..|b| - 1][|b| - |a|..] + [b[|b| - 1]];
    assert a == a[..|a| - 1] + [a[|a| - 1]];
  }

  /**
   * Two chains over one seed that end in the same signature: the shorter is the
   * end of the longer, and what precedes it in the longer leads back to the seed.
   */
  lemma {:induction false} ChainBinds(u: Upload, seed: string, a: seq<Element>, b: seq<Element>)
    requires Bytewise(u.c) && OneLine(seed) && |a| <= |b| && AllApart(u, seed, a, b)
    requires Link(u, seed, a) == Link(u, seed, b)
    ensures b[|b| - |a|..] == a && Link(u, seed, b[..|b| - |a|]) == seed
  {
    if a == [] {
      assert b[..|b|] == b && b[|b|..] == [];
    } else {
      var x, y := UnlinkLast(u, seed, a, b);
      ChainBinds(u, seed, x, y);
      SuffixGrows(a, b);
    }
  }

  /**
   * Two verifiers of the same request that stored the same signature after as
   * many accepted elements accepted the same elements in the same order.
   */
  lemma UploadBinds(u: Upload, seed: string, p: seq<Call>, q: seq<Call>)
    requires Bytewise(u.c) && OneLine(seed) && Stored(u, seed, p) == Stored(u, seed, q)
    requires |Accepted(u, seed, p)| == |Accepted(u, seed, q)|
    requires AllApart(u, seed, Accepted(u, seed, p), Accepted(u, seed, q))
    ensures Accepted(u, seed, p) == Accepted(u, seed, q)
  {
    StoredIsChain(u, seed, p);
    StoredIsChain(u, seed, q);
    ChainBinds(u, seed, Accepted(u, seed, p), Accepted(u, seed, q));
  }

  // ----- the trailer text -----

  /** What a trailer signature covers: the other headers, in the order sent. */
  function Covered(headers: seq<Header>): seq<Header> {
    if headers == [] then []
    else
      var h := Tidied(headers[|headers| - 1]);
      Covered(headers[..|headers| - 1]) + if IsTrailerSignature(h.0) then [] else [h]
  }

  function Tidied(h: Header): Header {
    (Lower(Trim(h.0)), Trim(h.1))
  }

  predicate IsTrailerSignature(name: string) {
    name == "x-amz-trailer-signature"
  }

  lemma CoveredSnoc(headers: seq<Header>, i: nat)
    requires i < |headers|
    ensures var h := Tidied(headers[i]);
      Lines(Covered(headers[..i + 1])) ==
        if IsTrailerSignature(h.0) then Lines(Covered(headers[..i])) else Lines(Covered(headers[..i])) + h.0 + ":" + h.1 + "\n"
  {
    var h := Tidied(headers[i]);
    assert headers[..i + 1][..i] == headers[..i];
    if IsTrailerSignature(h.0) {
      assert Covered(headers[..i + 1]) == Covered(headers[..i]);
    } else {
      LinesSnoc(Covered(headers[..i]), h);
    }
  }

  method CanonicalTrailer(headers: seq<Header>) returns (out: string)
    ensures out == Lines(Covered(headers))
  {
    out := "";
    for i := 0 to |headers|
      invariant out == Lines(Covered(headers[..i]))
    {
      CoveredSnoc(headers, i);
      var h := Tidied(headers[i]);
      if IsTrailerSignature(h.0) { continue; }
      out := out + h.0 + ":";
      out := out + h.1 + "\n";
    }
    assert headers[..|headers|] == headers;
  }

  lemma {:induction false} CoveredLines(headers: seq<Header>)
    requires forall i :: 0 <= i < |headers| ==> Token(headers[i].0) && OneLine(headers[i].1)
    ensures LineHeaders(Covered(headers))
  {
    if headers != [] {
      var (name, value) := headers[|headers| - 1];
      CoveredLines(headers[..|headers| - 1]);
      TrimKeeps(name, ':');
      TrimKeeps(name, '\n');
      TrimKeeps(value, '\n');
    }
  }

  /** The trailer text determines the covered headers. */
  lemma TrailerTextBinds(a: seq<Header>, b: seq<Header>)
    requires forall i :: 0 <= i < |a| ==> Token(a[i].0) && OneLine(a[i].1)
    requires forall i :: 0 <= i < |b| ==> Token(b[i].0) && OneLine(b[i].1)
    ensures Lines(Covered(a)) == Lines(Covered(b)) <==> Covered(a) == Covered(b)
  {
    CoveredLines(a);
    CoveredLines(b);
    if Lines(Covered(a)) == Lines(Covered(b)) {
      LinesInjective(Covered(a), Covered(b));
    }
  }

  /** The trailer signature's own header, in whatever case, is not covered; every other header is, where it stands. */
  lemma OwnSignatureNotCovered(a: seq<Header>, h: Header, b: seq<Header>)
    ensures Lower(Trim(h.0)) == "x-amz-trailer-signature" ==> Covered(a + [h] + b) == Covered(a + b)
    ensures Lower(Trim(h.0)) != "x-amz-trailer-signature" ==>
      Covered(a + [h] + b) == Covered(a) + [(Lower(Trim(h.0)), Trim(h.1))] + Covered(b)
  {
    CoveredAmid(a, h, b);
    CoveredOne(h);
    if Lower(Trim(h.0)) == "x-amz-trailer-signature" {
      NothingBetween(Covered(a), Covered([h]), Covered(b));
      CoveredConcat(a, b);
    }
  }

  lemma NothingBetween(a: seq<Header>, n: seq<Header>, b: seq<Header>)
    requires n == []
    ensures a + n + b == a + b
  {
    assert a + n == a;
  }

  lemma CoveredAmid(a: seq<Header>, h: Header, b: seq<Header>)
    ensures Covered(a + [h] + b) == Covered(a) + Covered([h]) + Covered(b)
  {
    CoveredConcat(a + [h], b);
    CoveredConcat(a, [h]);
  }

  lemma CoveredOne(h: Header)
    ensures Covered([h]) == if Lower(Trim(h.0)) == "x-amz-trailer-signature" then [] else [(Lower(Trim(h.0)), Trim(h.1))]
  {
    assert [h][..0] == [] && Covered([]) == [];
  }

  lemma {:induction false} CoveredConcat(a: seq<Header>, b: seq<Header>)
    ensures Covered(a + b) == Covered(a) + Covered(b)
    decreases |b|
  {
    if b == [] {
      assert a + b == a && Covered(b) == [] && Covered(a) + [] == Covered(a);
    } else {
      var front, last := b[..|b| - 1], b[|b| - 1];
      assert (a + b)[..|a + b| - 1] == a + front && (a + b)[|a + b| - 1] == last;
      CoveredConcat(a, front);
      var h := if IsTrailerSignature(Tidied(last).0) then [] else [Tidied(last)];
      assert Covered(a) + Covered(front) + h == Covered(a) + (Covered(front) + h);
    }
  }

  /** The expected signature is the hash of the element's text under the upload's key. */
  lemma ExpectedMeans(u: Upload, previous: string, e: Element)
    requires Recording(u.c)
    ensures Expected(u, previous, e) == HexEncode(u.key + "|" + ElementText(u, previous, e))
  {
  }
}
