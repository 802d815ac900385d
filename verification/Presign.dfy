// Presigned URLs: generating the query string, and what the receiving side's
// parser and verifier make of it.
module Presign {
  import opened Wrappers
  import opened Text
  import opened SigV4
  import opened AuthParse
  import opened Binding
  import opened Query

  datatype Grant = Grant(verb: string, host: string, path: string, extras: seq<Pair>, keyId: string, secret: string,
                         region: string, expires: nat, datetime: string)

  const HOST := "host"
  const UNSIGNED := "UNSIGNED-PAYLOAD"
  const S3 := "s3"

  /** What the source demands: a timestamp that has a date, a 64-bit expiry, and bytes. */
  predicate Usable(g: Grant) {
    && |g.datetime| >= 8 && g.expires <= U64_MAX && BytePairs(g.extras)
    && IsBytes(g.keyId) && IsBytes(g.region) && IsBytes(g.datetime)
  }

  function Date(g: Grant): string
    requires Usable(g)
  {
    g.datetime[..8]
  }

  function Credential(g: Grant): string
    requires Usable(g)
  {
    Text.Join([g.keyId, Date(g), g.region, S3, SCOPE_SUFFIX], '/')
  }

  /** The five authentication parameters a URL is signed with. */
  function AuthParams(g: Grant): seq<Pair>
    requires Usable(g)
  {
    [("X-Amz-Algorithm", ALGORITHM), ("X-Amz-Credential", Credential(g)), ("X-Amz-Date", g.datetime),
     ("X-Amz-Expires", Decimal(g.expires)), ("X-Amz-SignedHeaders", HOST)]
  }

  function Params(g: Grant): seq<Pair>
    requires Usable(g)
  {
    AuthParams(g) + g.extras
  }

  function ScopeOf(g: Grant): Scope
    requires Usable(g)
  {
    Scope(g.secret, Date(g), g.region, S3, g.datetime)
  }

  function Granted(g: Grant): Request
    requires Usable(g)
  {
    Request(g.verb, g.path, Canonical(Params(g)), [(HOST, g.host)], UNSIGNED)
  }

  function GeneratePresignedUrl(c: Crypto, g: Grant): string
    requires Usable(g)
  {
    Canonical(Params(g)) + "&" + SIGNATURE + "=" + Signature(c, Granted(g), [HOST], ScopeOf(g))
  }

  // ----- verification -----

  function WithoutSignature(pairs: seq<Pair>): seq<Pair> {
    if pairs == [] then []
    else WithoutSignature(pairs[..|pairs| - 1]) + if pairs[|pairs| - 1].0 != SIGNATURE then [pairs[|pairs| - 1]] else []
  }

  function PresignedQuery(query: string): string {
    if query == [] then "" else Canonical(WithoutSignature(FormParse(query)))
  }

  method CanonicalQueryStringPresigned(query: string) returns (r: string)
    ensures r == PresignedQuery(query)
  {
    if query == [] { return ""; }
    var pairs := FormParse(query);
    var encoded: seq<Pair> := [];
    for i := 0 to |pairs|
      invariant encoded == EncodeAll(WithoutSignature(pairs[..i]))
    {
      assert pairs[..i + 1][..i] == pairs[..i];
      if pairs[i].0 != SIGNATURE {
        var k := UriEncode(pairs[i].0, true);
        var v := UriEncode(pairs[i].1, true);
        encoded := encoded + [(k, v)];
      }
    }
    assert pairs[..|pairs|] == pairs;
    r := Render(Sort(encoded));
  }

  /** What arrives: the method, the path, the query string and the headers. */
  datatype Arrival = Arrival(verb: string, path: string, query: string, headers: seq<Header>)

  function Presented(a: Arrival): Request {
    Request(a.verb, a.path, PresignedQuery(a.query), a.headers, UNSIGNED)
  }

  predicate VerifyPresigned(c: Crypto, a: Arrival, p: ParsedQueryAuth, secret: string) {
    Signature(c, Presented(a), p.auth.signedHeaders, Scope(secret, p.auth.date, p.auth.region, p.auth.service, p.datetime))
    == p.auth.signature
  }

  // ----- what the parser sees -----

  lemma ParamsAreBytes(g: Grant)
    requires Usable(g)
    ensures BytePairs(Params(g))
  {
    JoinBytes([g.keyId, Date(g), g.region, S3, SCOPE_SUFFIX], '/');
    NamesAreBytes();
    var five := AuthParams(g);
    assert BytePair(five[0]) && BytePair(five[1]) && BytePair(five[2]) && BytePair(five[3]) && BytePair(five[4]);
  }

  lemma NamesAreBytes()
    ensures IsBytes("X-Amz-Algorithm") && IsBytes("X-Amz-Credential") && IsBytes("X-Amz-Date")
    ensures IsBytes("X-Amz-Expires") && IsBytes("X-Amz-SignedHeaders")
    ensures IsBytes(ALGORITHM) && IsBytes(HOST)
  {
  }

  lemma {:induction false} JoinBytes(parts: seq<string>, c: char)
    requires IsByte(c) && forall i :: 0 <= i < |parts| ==> IsBytes(parts[i])
    ensures IsBytes(Text.Join(parts, c))
  {
    if |parts| > 1 {
      JoinBytes(parts[1..], c);
    }
  }

  lemma RenderSnoc(ps: seq<Pair>, p: Pair)
    requires ps != []
    ensures Render(ps + [p]) == Render(ps) + "&" + p.0 + "=" + p.1
  {
    assert Rendered(ps + [p]) == Rendered(ps) + [p.0 + "=" + p.1];
    JoinSnoc(Rendered(ps), p.0 + "=" + p.1, '&');
  }

  lemma SelfEncoded(s: string)
    requires forall i :: 0 <= i < |s| ==> Unreserved(s[i])
    ensures AllPlain(s) && FormDecode(s) == s
  {
    EncodeUnreserved(s);
    DecodeEncode(s);
  }

  lemma SignatureNamePlain()
    ensures forall i :: 0 <= i < |SIGNATURE| ==> Unreserved(SIGNATURE[i])
  {
  }

  /** The pairs of a list in signing order. */
  function InOrder(ps: seq<Pair>): seq<Pair> {
    DecodeAll(Sort(EncodeAll(ps)))
  }

  /** One more pair whose text needs no encoding. */
  lemma ParseSnoc(ps: seq<Pair>, p: Pair)
    requires ps != [] && (forall i :: 0 <= i < |ps| ==> PlainPair(ps[i])) && PlainPair(p) && DecodePair(p) == p
    ensures FormParse(Render(ps) + "&" + p.0 + "=" + p.1) == DecodeAll(ps) + [p]
  {
    RenderSnoc(ps, p);
    ParseRender(ps + [p]);
    assert DecodeAll(ps + [p]) == DecodeAll(ps) + [p];
  }

  lemma SignatureDecodes(sig: string)
    requires forall i :: 0 <= i < |sig| ==> Unreserved(sig[i])
    ensures PlainPair((SIGNATURE, sig)) && DecodePair((SIGNATURE, sig)) == (SIGNATURE, sig)
  {
    SignatureNamePlain();
    SelfEncoded(SIGNATURE);
    SelfEncoded(sig);
  }

  /** The URL parses to its parameters in signing order, then the signature. */
  lemma UrlParses(ps: seq<Pair>, sig: string)
    requires BytePairs(ps) && ps != [] && forall i :: 0 <= i < |sig| ==> Unreserved(sig[i])
    ensures FormParse(Canonical(ps) + "&" + SIGNATURE + "=" + sig) == InOrder(ps) + [(SIGNATURE, sig)]
    ensures multiset(InOrder(ps)) == multiset(ps)
  {
    CanonicalParses(ps);
    SortedEncodedPlain(ps);
    SignatureDecodes(sig);
    ParseSnoc(Sort(EncodeAll(ps)), (SIGNATURE, sig));
  }

  /** A value of that name none of whose rivals is encoded to something greater. */
  ghost predicate Greatest(ps: seq<Pair>, name: string, v: string) {
    (name, v) in ps && forall w :: (name, w) in ps ==> PairLeq(EncodePair((name, w)), EncodePair((name, v)))
  }

  lemma {:induction false} LastValueAt(ps: seq<Pair>, name: string) returns (k: nat)
    requires LastValue(ps, name).Some?
    ensures k < |ps| && ps[k] == (name, LastValue(ps, name).value) && forall j :: k < j < |ps| ==> ps[j].0 != name
  {
    k := |ps| - 1;
    if ps[k].0 != name {
      k := LastValueAt(ps[..k], name);
    }
  }

  lemma {:induction false} LastValueExists(ps: seq<Pair>, p: Pair)
    requires p in ps
    ensures LastValue(ps, p.0).Some?
  {
    var n := |ps| - 1;
    if ps[n].0 != p.0 {
      assert ps == ps[..n] + [ps[n]];
      LastValueExists(ps[..n], p);
    }
  }

  /** Of the values of one name, the parser keeps the one whose encoding is greatest. */
  lemma ParserKeepsGreatest(ps: seq<Pair>, name: string, v: string)
    requires BytePairs(ps) && multiset(InOrder(ps)) == multiset(ps)
    ensures LastValue(InOrder(ps), name) == Some(v) <==> Greatest(ps, name, v)
  {
    if LastValue(InOrder(ps), name).Some? {
      var u := LastValue(InOrder(ps), name).value;
      KeptIsGreatest(ps, name, u);
      if Greatest(ps, name, v) {
        PairTotal(EncodePair((name, u)), EncodePair((name, v)));
        InBytes(ps, (name, u));
        InBytes(ps, (name, v));
        DecodeEncodePair((name, u));
        DecodeEncodePair((name, v));
      }
    } else if Greatest(ps, name, v) {
      assert (name, v) in multiset(InOrder(ps)) && (name, v) in InOrder(ps);
      LastValueExists(InOrder(ps), (name, v));
    }
  }

  lemma InBytes(ps: seq<Pair>, p: Pair)
    requires BytePairs(ps) && p in ps
    ensures BytePair(p)
  {
    var i :| 0 <= i < |ps| && ps[i] == p;
  }

  lemma KeptIsGreatest(ps: seq<Pair>, name: string, u: string)
    requires BytePairs(ps) && multiset(InOrder(ps)) == multiset(ps) && LastValue(InOrder(ps), name) == Some(u)
    ensures Greatest(ps, name, u)
  {
    var d := InOrder(ps);
    var k := LastValueAt(d, name);
    assert (name, u) in multiset(d) && (name, u) in ps;
    forall w | (name, w) in ps ensures PairLeq(EncodePair((name, w)), EncodePair((name, u))) {
      assert (name, w) in multiset(d) && (name, w) in d;
      var j :| 0 <= j < |d| && d[j] == (name, w);
      InOrderSorted(ps, j, k);
    }
  }

  lemma InOrderSorted(ps: seq<Pair>, j: nat, k: nat)
    requires BytePairs(ps) && j <= k < |InOrder(ps)|
    ensures PairLeq(EncodePair(InOrder(ps)[j]), EncodePair(InOrder(ps)[k]))
  {
    SortSorted(EncodeAll(ps));
    SortedEncodedPlain(ps);
    var x := SortedEncoded(ps, j);
    var y := SortedEncoded(ps, k);
    DecodeEncodePair(ps[x]);
    DecodeEncodePair(ps[y]);
  }

  // ----- when the URL is read back as it was meant -----

  function Meant(c: Crypto, g: Grant): ParsedQueryAuth
    requires Usable(g)
  {
    ParsedQueryAuth(ParsedAuth(g.keyId, Date(g), g.region, S3, [HOST], Signature(c, Granted(g), [HOST], ScopeOf(g))),
                    g.expires, g.datetime)
  }

  predicate SlashFree(g: Grant)
    requires Usable(g)
  {
    '/' !in g.keyId && '/' !in Date(g) && '/' !in g.region
  }

  /** The credential has five parts, the meant ones, exactly when none of them holds a slash. */
  lemma CredentialExactly(g: Grant, v: string)
    requires Usable(g)
    ensures Split(v, '/') == [g.keyId, Date(g), g.region, S3, SCOPE_SUFFIX] <==> v == Credential(g) && SlashFree(g)
  {
    var parts := [g.keyId, Date(g), g.region, S3, SCOPE_SUFFIX];
    SplitPieces(v, '/');
    if Split(v, '/') == parts {
      assert '/' !in parts[0] && '/' !in parts[1] && '/' !in parts[2];
    } else if SlashFree(g) {
      assert '/' !in S3 && '/' !in SCOPE_SUFFIX;
      SplitJoin(parts, '/');
    }
  }

  lemma QueryAuthExactly(c: Crypto, g: Grant, a: string, b: string, d: string, e: string, h: string, sig: string)
    requires Usable(g) && sig == Meant(c, g).auth.signature && sig != []
    ensures QueryAuth(Some(a), Some(b), Some(d), Some(e), Some(h), Some(sig)) == Ok(Meant(c, g)) <==>
      && a == ALGORITHM && b == Credential(g) && SlashFree(g) && d == g.datetime
      && ParseU64(e) == Some(g.expires) && TrimLower(Split(h, ';')) == [HOST]
  {
    CredentialExactly(g, b);
    var parts := Split(b, '/');
    assert |parts| == 5 ==> parts == [parts[0], parts[1], parts[2], parts[3], parts[4]];
  }

  /** How each authentication parameter must read. */
  predicate ReadsAs(g: Grant, name: string, v: string)
    requires Usable(g)
  {
    && (name == "X-Amz-Algorithm" ==> v == ALGORITHM)
    && (name == "X-Amz-Credential" ==> v == Credential(g))
    && (name == "X-Amz-Date" ==> v == g.datetime)
    && (name == "X-Amz-Expires" ==> ParseU64(v) == Some(g.expires))
    && (name == "X-Amz-SignedHeaders" ==> TrimLower(Split(v, ';')) == [HOST])
  }

  /** No extra parameter takes the place of an authentication parameter and reads differently. */
  ghost predicate Undisturbed(g: Grant)
    requires Usable(g)
  {
    forall name, v :: Greatest(Params(g), name, v) ==> ReadsAs(g, name, v)
  }

  /** The value the parser keeps for an authentication parameter. */
  lemma Kept(g: Grant, i: nat) returns (v: string)
    requires Usable(g) && i < 5 && BytePairs(Params(g)) && multiset(InOrder(Params(g))) == multiset(Params(g))
    ensures LastValue(InOrder(Params(g)), AuthParams(g)[i].0) == Some(v) && Greatest(Params(g), AuthParams(g)[i].0, v)
  {
    var p := AuthParams(g)[i];
    assert p == Params(g)[i];
    assert p in multiset(InOrder(Params(g))) && p in InOrder(Params(g));
    LastValueExists(InOrder(Params(g)), p);
    v := LastValue(InOrder(Params(g)), p.0).value;
    ParserKeepsGreatest(Params(g), p.0, v);
  }

  lemma LastValueSnoc(ps: seq<Pair>, p: Pair, name: string)
    ensures LastValue(ps + [p], name) == if p.0 == name then Some(p.1) else LastValue(ps, name)
  {
    assert (ps + [p])[..|ps|] == ps;
  }

  lemma SignatureIsPlain(c: Crypto, g: Grant)
    requires Usable(g) && Sound(c)
    ensures var sig := Meant(c, g).auth.signature; sig != [] && forall i :: 0 <= i < |sig| ==> Unreserved(sig[i])
  {
  }

  lemma SeenParameter(ps: seq<Pair>, sig: string, name: string)
    requires BytePairs(ps) && ps != [] && forall i :: 0 <= i < |sig| ==> Unreserved(sig[i])
    ensures var seen := FormParse(Canonical(ps) + "&" + SIGNATURE + "=" + sig);
      LastValue(seen, name) == if name == SIGNATURE then Some(sig) else LastValue(InOrder(ps), name)
  {
    UrlParses(ps, sig);
    LastValueSnoc(InOrder(ps), (SIGNATURE, sig), name);
  }

  lemma UndisturbedExactly(g: Grant, a: string, b: string, d: string, e: string, h: string)
    requires Usable(g)
    requires BytePairs(Params(g)) && multiset(InOrder(Params(g))) == multiset(Params(g))
    requires LastValue(InOrder(Params(g)), "X-Amz-Algorithm") == Some(a)
    requires LastValue(InOrder(Params(g)), "X-Amz-Credential") == Some(b)
    requires LastValue(InOrder(Params(g)), "X-Amz-Date") == Some(d)
    requires LastValue(InOrder(Params(g)), "X-Amz-Expires") == Some(e)
    requires LastValue(InOrder(Params(g)), "X-Amz-SignedHeaders") == Some(h)
    ensures Undisturbed(g) <==>
      && a == ALGORITHM && b == Credential(g) && d == g.datetime
      && ParseU64(e) == Some(g.expires) && TrimLower(Split(h, ';')) == [HOST]
  {
    ParserKeepsGreatest(Params(g), "X-Amz-Algorithm", a);
    ParserKeepsGreatest(Params(g), "X-Amz-Credential", b);
    ParserKeepsGreatest(Params(g), "X-Amz-Date", d);
    ParserKeepsGreatest(Params(g), "X-Amz-Expires", e);
    ParserKeepsGreatest(Params(g), "X-Amz-SignedHeaders", h);
    if a == ALGORITHM && b == Credential(g) && d == g.datetime && ParseU64(e) == Some(g.expires) && TrimLower(Split(h, ';')) == [HOST] {
      forall name, v | Greatest(Params(g), name, v) ensures ReadsAs(g, name, v) {
        ParserKeepsGreatest(Params(g), name, v);
      }
    }
  }

  /** The parser's verdict, in terms of the values it keeps. */
  lemma VerdictOn(c: Crypto, g: Grant) returns (a: string, b: string, d: string, e: string, h: string)
    requires Usable(g) && Sound(c)
    ensures BytePairs(Params(g)) && multiset(InOrder(Params(g))) == multiset(Params(g))
    ensures LastValue(InOrder(Params(g)), "X-Amz-Algorithm") == Some(a)
    ensures LastValue(InOrder(Params(g)), "X-Amz-Credential") == Some(b)
    ensures LastValue(InOrder(Params(g)), "X-Amz-Date") == Some(d)
    ensures LastValue(InOrder(Params(g)), "X-Amz-Expires") == Some(e)
    ensures LastValue(InOrder(Params(g)), "X-Amz-SignedHeaders") == Some(h)
    ensures QueryAuthOf(GeneratePresignedUrl(c, g)) ==
      QueryAuth(Some(a), Some(b), Some(d), Some(e), Some(h), Some(Meant(c, g).auth.signature))
  {
    var sig := Meant(c, g).auth.signature;
    ParamsAreBytes(g);
    SignatureIsPlain(c, g);
    UrlParses(Params(g), sig);
    SeenAll(Params(g), sig, FormParse(GeneratePresignedUrl(c, g)));
    a := Kept(g, 0);
    b := Kept(g, 1);
    d := Kept(g, 2);
    e := Kept(g, 3);
    h := Kept(g, 4);
  }

  /** The URL is parsed to what was meant, exactly when no slash or extra parameter gets in the way. */
  lemma PresignParsesExactly(c: Crypto, g: Grant)
    requires Usable(g) && Sound(c)
    ensures QueryAuthOf(GeneratePresignedUrl(c, g)) == Ok(Meant(c, g)) <==> SlashFree(g) && Undisturbed(g)
  {
    var a, b, d, e, h := VerdictOn(c, g);
    SignatureIsPlain(c, g);
    UndisturbedExactly(g, a, b, d, e, h);
    QueryAuthExactly(c, g, a, b, d, e, h, Meant(c, g).auth.signature);
  }

  lemma SeenAll(ps: seq<Pair>, sig: string, seen: seq<Pair>)
    requires BytePairs(ps) && ps != [] && forall i :: 0 <= i < |sig| ==> Unreserved(sig[i])
    requires seen == FormParse(Canonical(ps) + "&" + SIGNATURE + "=" + sig)
    ensures LastValue(seen, "X-Amz-Algorithm") == LastValue(InOrder(ps), "X-Amz-Algorithm")
    ensures LastValue(seen, "X-Amz-Credential") == LastValue(InOrder(ps), "X-Amz-Credential")
    ensures LastValue(seen, "X-Amz-Date") == LastValue(InOrder(ps), "X-Amz-Date")
    ensures LastValue(seen, "X-Amz-Expires") == LastValue(InOrder(ps), "X-Amz-Expires")
    ensures LastValue(seen, "X-Amz-SignedHeaders") == LastValue(InOrder(ps), "X-Amz-SignedHeaders")
    ensures LastValue(seen, SIGNATURE) == Some(sig)
  {
    NamesDiffer(SIGNATURE);
    SeenParameter(ps, sig, "X-Amz-Algorithm");
    SeenParameter(ps, sig, "X-Amz-Credential");
    SeenParameter(ps, sig, "X-Amz-Date");
    SeenParameter(ps, sig, "X-Amz-Expires");
    SeenParameter(ps, sig, "X-Amz-SignedHeaders");
    SeenParameter(ps, sig, SIGNATURE);
  }

  // ----- when the signature verifies -----

  predicate NoSignature(ps: seq<Pair>) {
    forall i :: 0 <= i < |ps| ==> ps[i].0 != SIGNATURE
  }

  lemma {:induction false} FilterKeepsAll(ps: seq<Pair>)
    ensures |WithoutSignature(ps)| <= |ps|
    ensures NoSignature(ps) ==> WithoutSignature(ps) == ps
    ensures !NoSignature(ps) ==> |WithoutSignature(ps)| < |ps|
    ensures BytePairs(ps) ==> BytePairs(WithoutSignature(ps))
  {
    if ps != [] {
      var n := |ps| - 1;
      FilterKeepsAll(ps[..n]);
      assert ps == ps[..n] + [ps[n]];
    }
  }

  lemma NoSignaturePermuted(a: seq<Pair>, b: seq<Pair>)
    requires multiset(a) == multiset(b) && NoSignature(a)
    ensures NoSignature(b)
  {
    forall i | 0 <= i < |b| ensures b[i].0 != SIGNATURE {
      assert b[i] in multiset(a) && b[i] in a;
    }
  }

  lemma BytesPermuted(a: seq<Pair>, b: seq<Pair>)
    requires multiset(a) == multiset(b) && BytePairs(a)
    ensures BytePairs(b)
  {
    forall i | 0 <= i < |b| ensures BytePair(b[i]) {
      assert b[i] in multiset(a) && b[i] in a;
    }
  }

  /** Dropping the signature gives back the query that was signed, exactly when nothing else has its name. */
  lemma PresignedQueryExactly(ps: seq<Pair>, sig: string)
    requires BytePairs(ps) && ps != [] && forall i :: 0 <= i < |sig| ==> Unreserved(sig[i])
    ensures PresignedQuery(Canonical(ps) + "&" + SIGNATURE + "=" + sig) == Canonical(ps) <==> NoSignature(ps)
  {
    UrlParses(ps, sig);
    var d := InOrder(ps);
    var all := d + [(SIGNATURE, sig)];
    assert all[..|d|] == d && WithoutSignature(all) == WithoutSignature(d);
    FilterKeepsAll(d);
    if NoSignature(ps) {
      NoSignaturePermuted(ps, d);
      CanonicalPermuted(d, ps);
    } else if Canonical(WithoutSignature(d)) == Canonical(ps) {
      BytesPermuted(ps, d);
      CanonicalParses(WithoutSignature(d));
      CanonicalParses(ps);
      assert |WithoutSignature(d)| == |multiset(WithoutSignature(d))| == |multiset(d)| == |d|;
      NoSignaturePermuted(d, ps);
    }
  }

  /** The arrival brings the method, path and host that were granted. */
  ghost predicate AsGranted(g: Grant, a: Arrival) {
    a.verb == g.verb && CanonicalUri(a.path) == CanonicalUri(g.path) && SameValues(a.headers, [(HOST, g.host)], [HOST])
  }

  lemma HostIsSignable()
    ensures SignableNames([HOST])
  {
    assert Lower(HOST) == HOST;
  }

  /**
   * The law the two sides are built for: a URL whose extra parameters stay clear
   * of the authentication parameters is parsed to what was meant and verifies,
   * for every arrival that brings the granted method, path and host.
   */
  lemma PresignRoundTrip(c: Crypto, g: Grant, a: Arrival)
    requires Usable(g) && Sound(c) && SlashFree(g) && Undisturbed(g) && NoSignature(g.extras)
    requires a.query == GeneratePresignedUrl(c, g) && AsGranted(g, a)
    ensures QueryAuthOf(a.query) == Ok(Meant(c, g)) && VerifyPresigned(c, a, Meant(c, g), g.secret)
  {
    PresignParsesExactly(c, g);
    ParamsAreBytes(g);
    SignatureIsPlain(c, g);
    ParamsNoSignature(g);
    PresignedQueryExactly(Params(g), Meant(c, g).auth.signature);
    HostIsSignable();
    SameSignedSuffices(c, Presented(a), Granted(g), [HOST], ScopeOf(g));
  }

  lemma ParamsNoSignature(g: Grant)
    requires Usable(g)
    ensures NoSignature(Params(g)) <==> NoSignature(g.extras)
  {
    NamesDiffer(SIGNATURE);
    var five := AuthParams(g);
    assert NoSignature(five);
    if NoSignature(Params(g)) {
      forall i | 0 <= i < |g.extras| ensures g.extras[i].0 != SIGNATURE {
        assert Params(g)[5 + i] == g.extras[i];
      }
    }
  }

  lemma TextsAreOneLine(g: Grant, a: Arrival)
    requires Usable(g) && OneLine(g.verb) && OneLine(g.path) && OneLine(a.verb) && OneLine(a.path)
    ensures OneLineRequest(Granted(g)) && OneLineRequest(Presented(a))
  {
    assert OneLine(UNSIGNED);
    CanonicalOneLine(Params(g));
    if a.query != [] {
      CanonicalOneLine(WithoutSignature(FormParse(a.query)));
    }
  }

  /** The signature verifies exactly for the granted method, path and host, with no rival signature. */
  lemma PresignVerifiesExactly(c: Crypto, g: Grant, a: Arrival)
    requires Usable(g) && Sound(c) && Bytewise(c) && a.query == GeneratePresignedUrl(c, g)
    requires OneLine(g.verb) && OneLine(g.path) && OneLine(g.host)
    requires OneLine(a.verb) && OneLine(a.path) && OneLineValues(a.headers)
    requires Distinguished(c, Presented(a), Granted(g), [HOST], ScopeOf(g))
    ensures VerifyPresigned(c, a, Meant(c, g), g.secret) <==> NoSignature(g.extras) && AsGranted(g, a)
  {
    ParamsAreBytes(g);
    SignatureIsPlain(c, g);
    ParamsNoSignature(g);
    PresignedQueryExactly(Params(g), Meant(c, g).auth.signature);
    HostIsSignable();
    TextsAreOneLine(g, a);
    SignatureBinds(c, Presented(a), Granted(g), [HOST], ScopeOf(g));
  }

  /**
   * And exactly those: unless a hash collides on the two requests, a URL that is
   * parsed to what was meant and verifies has all of these properties.
   */
  lemma PresignRoundTripExactly(c: Crypto, g: Grant, a: Arrival)
    requires Usable(g) && Sound(c) && Bytewise(c) && a.query == GeneratePresignedUrl(c, g)
    requires OneLine(g.verb) && OneLine(g.path) && OneLine(g.host)
    requires OneLine(a.verb) && OneLine(a.path) && OneLineValues(a.headers)
    requires Distinguished(c, Presented(a), Granted(g), [HOST], ScopeOf(g))
    ensures QueryAuthOf(a.query) == Ok(Meant(c, g)) && VerifyPresigned(c, a, Meant(c, g), g.secret) <==>
      SlashFree(g) && Undisturbed(g) && NoSignature(g.extras) && AsGranted(g, a)
  {
    PresignParsesExactly(c, g);
    PresignVerifiesExactly(c, g, a);
  }

  /** Extra parameters that avoid the authentication names never disturb. */
  lemma OtherNamesUndisturbed(g: Grant)
    requires Usable(g)
    requires forall i, k :: 0 <= i < |g.extras| && 0 <= k < 5 ==> g.extras[i].0 != AuthParams(g)[k].0
    ensures Undisturbed(g)
  {
    forall name, v | Greatest(Params(g), name, v) ensures ReadsAs(g, name, v) {
      var i :| 0 <= i < |Params(g)| && Params(g)[i] == (name, v);
      if i >= 5 {
        OtherName(g, i - 5);
      } else {
        OwnName(g, i);
      }
    }
  }

  lemma OtherName(g: Grant, i: nat)
    requires Usable(g) && i < |g.extras| && forall k :: 0 <= k < 5 ==> g.extras[i].0 != AuthParams(g)[k].0
    ensures ReadsAs(g, g.extras[i].0, g.extras[i].1)
  {
    var n := g.extras[i].0;
    var p := AuthParams(g);
    assert n != p[0].0 && n != p[1].0 && n != p[2].0 && n != p[3].0 && n != p[4].0;
  }

  lemma HostReads()
    ensures TrimLower(Split(HOST, ';')) == [HOST]
  {
    assert ';' !in HOST && Trimmed(HOST) && Lower(HOST) == HOST;
    SplitPlain(HOST, ';');
    TrimResult(HOST);
    assert TrimLower([HOST]) == [HOST];
  }

  lemma OwnName(g: Grant, i: nat)
    requires Usable(g) && i < 5
    ensures ReadsAs(g, AuthParams(g)[i].0, AuthParams(g)[i].1)
  {
    NamesDiffer(AuthParams(g)[i].0);
    ParseDecimal(g.expires);
    HostReads();
  }

  /** A key id with a slash: the URL is not parsed to what was meant. */
  lemma SlashInKeyId(c: Crypto)
    requires Sound(c)
    ensures exists g :: Usable(g) && g.extras == [] && QueryAuthOf(GeneratePresignedUrl(c, g)) != Ok(Meant(c, g))
  {
    var g := Grant("GET", "h", "/", [], "a/b", "s", "r", 60, "20130524");
    assert g.keyId[1] == '/';
    PresignParsesExactly(c, g);
  }

  /** Verification of a presigned request: the payload is unsigned, and the query leaves the signature out. */
  lemma PresignedMeans(c: Crypto, a: Arrival, p: ParsedQueryAuth, secret: string)
    requires Recording(c)
    ensures VerifyPresigned(c, a, p, secret) <==>
      p.auth.signature == HexEncode(
        "AWS4" + secret + "|" + p.auth.date + "|" + p.auth.region + "|" + p.auth.service + "|" + "aws4_request" + "|" +
        ToSign(c, Request(a.verb, a.path, PresignedQuery(a.query), a.headers, "UNSIGNED-PAYLOAD"), p.auth.signedHeaders,
               Scope(secret, p.auth.date, p.auth.region, p.auth.service, p.datetime)))
  {
    var s := Scope(secret, p.auth.date, p.auth.region, p.auth.service, p.datetime);
    KeyDerivation(c, s);
    RecordedSignature(c, KeyOf(c, s), ToSign(c, Presented(a), p.auth.signedHeaders, s));
  }
}
