// Signing an outbound request, and what the receiving side makes of it.
module Outbound {
  import opened Wrappers
  import opened Text
  import opened Order
  import opened SigV4
  import opened AuthParse
  import opened Binding
  import Query

  datatype Signer = Signer(keyId: string, secret: string, region: string, service: string)

  /** A request as sent: its query is canonicalised before it is signed. */
  function Canonicalised(q: Request): Request {
    q.(query := Query.CanonicalQuery(q.query))
  }

  predicate VerifyRequest(c: Crypto, q: Request, auth: ParsedAuth, secret: string, datetime: string) {
    Signature(c, Canonicalised(q), auth.signedHeaders, Scope(secret, auth.date, auth.region, auth.service, datetime))
    == auth.signature
  }

  /** What the signer means to say. */
  function Meant(c: Crypto, q: Request, signer: Signer, datetime: string): ParsedAuth
    requires |datetime| >= 8
  {
    var names := SignedNames(q.headers);
    ParsedAuth(signer.keyId, datetime[..8], signer.region, signer.service, names,
               Signature(c, Canonicalised(q), names, Scope(signer.secret, datetime[..8], signer.region, signer.service, datetime)))
  }

  /** The header text: the algorithm, a space and three fields between commas. */
  function HeaderText(credential: string, names: string, signature: string): string {
    ALGORITHM + [' '] + Join([CREDENTIAL + credential, [' '] + SIGNED_HEADERS + names, [' '] + SIGNATURE_FIELD + signature], ',')
  }

  function CredentialOf(m: ParsedAuth): string {
    Join([m.accessKeyId, m.date, m.region, m.service, SCOPE_SUFFIX], '/')
  }

  function SignOutbound(c: Crypto, q: Request, signer: Signer, datetime: string): string
    requires |datetime| >= 8
  {
    var m := Meant(c, q, signer, datetime);
    HeaderText(CredentialOf(m), NamesText(m.signedHeaders), m.signature)
  }

  // ----- reading the header text back -----

  predicate HexText(s: string) {
    s != [] && forall i :: 0 <= i < |s| ==> '0' <= s[i] <= '9' || 'a' <= s[i] <= 'f'
  }

  lemma HexTextIsPlain(s: string)
    requires HexText(s)
    ensures ',' !in s && Trimmed(s)
  {
  }

  /** A prefix that is trimmed on both ends. */
  predicate Tag(prefix: string) {
    prefix != [] && Trimmed(prefix) && ',' !in prefix
  }

  lemma FieldOf(prefix: string, v: string, space: string)
    requires Tag(prefix) && Trimmed(v) && (space == [] || space == [' '])
    ensures Trim(space + prefix + v) == prefix + v
  {
    assert space + prefix + v == space + (prefix + v);
    assert [] + (prefix + v) == prefix + v;
    TrimSpace(prefix + v);
  }

  lemma TrimSpace(s: string)
    requires s != [] && Trimmed(s)
    ensures Trim(s) == s && Trim([' '] + s) == s
  {
    TrimResult(s);
    assert ([' '] + s)[1..] == s;
    assert TrimStart(s) == s;
  }

  /** The field is found in its piece when no later piece has the prefix. */
  lemma {:induction false} FieldFound(pieces: seq<string>, prefix: string, k: nat)
    requires k < |pieces| && prefix <= Trim(pieces[k])
    requires forall j :: k < j < |pieces| ==> !(prefix <= Trim(pieces[j]))
    ensures LastField(pieces, prefix) == Some(Trim(Trim(pieces[k])[|prefix|..]))
  {
    if k < |pieces| - 1 {
      FieldFound(pieces[..|pieces| - 1], prefix, k);
    }
  }

  lemma OneField(pieces: seq<string>, k: nat, prefix: string, v: string)
    requires Tag(prefix) && Trimmed(v) && k < |pieces| && Trim(pieces[k]) == prefix + v
    requires forall j :: k < j < |pieces| ==> !(prefix <= Trim(pieces[j]))
    ensures LastField(pieces, prefix) == Some(v)
  {
    FieldFound(pieces, prefix, k);
    TrimResult(v);
    assert (prefix + v)[|prefix|..] == v;
  }

  /** Three fields with exclusive prefixes are found, each in its piece. */
  lemma ThreeFields(t0: string, t1: string, t2: string, v0: string, v1: string, v2: string)
    requires Tag(t0) && Tag(t1) && Tag(t2) && Trimmed(v0) && Trimmed(v1) && Trimmed(v2)
    requires !(t0 <= t1 + v1) && !(t0 <= t2 + v2) && !(t1 <= t2 + v2)
    ensures var pieces := [t0 + v0, [' '] + t1 + v1, [' '] + t2 + v2];
      LastField(pieces, t0) == Some(v0) && LastField(pieces, t1) == Some(v1) && LastField(pieces, t2) == Some(v2)
  {
    FieldOf(t0, v0, []);
    FieldOf(t1, v1, [' ']);
    FieldOf(t2, v2, [' ']);
    assert [] + t0 + v0 == t0 + v0;
    var p := [t0 + v0, [' '] + t1 + v1, [' '] + t2 + v2];
    OneField(p, 0, t0, v0);
    OneField(p, 1, t1, v1);
    OneField(p, 2, t2, v2);
  }

  lemma Tags(cred: string, names: string, sig: string)
    ensures Tag(CREDENTIAL) && Tag(SIGNED_HEADERS) && Tag(SIGNATURE_FIELD)
    ensures !(CREDENTIAL <= SIGNED_HEADERS + names) && !(CREDENTIAL <= SIGNATURE_FIELD + sig)
    ensures !(SIGNED_HEADERS <= SIGNATURE_FIELD + sig)
  {
    PrefixesExclusive(SIGNED_HEADERS + names);
    PrefixesExclusive(SIGNATURE_FIELD + sig);
  }

  lemma Splits(a: string, b: string, c: string)
    requires ',' !in a && ',' !in b && ',' !in c
    ensures Split(Join([a, b, c], ','), ',') == [a, b, c]
  {
    SplitJoin([a, b, c], ',');
  }

  /** Trimming and stripping the algorithm leaves the fields. */
  lemma Unwrapped(algorithm: string, rest: string)
    requires Tag(algorithm) && rest != [] && Trimmed(rest)
    ensures var h := Trim(algorithm + [' '] + rest); algorithm <= h && TrimStart(h[|algorithm|..]) == rest
  {
    var h := algorithm + [' '] + rest;
    TrimResult(h);
    assert h[|algorithm|..] == [' '] + rest && ([' '] + rest)[1..] == rest;
  }

  lemma HeaderReads(cred: string, names: string, sig: string)
    requires Trimmed(cred) && ',' !in cred && Trimmed(names) && ',' !in names && HexText(sig)
    ensures AuthorizationOf(HeaderText(cred, names, sig)) == HeaderAuth(Some(cred), Some(names), Some(sig))
  {
    Tags(cred, names, sig);
    HexTextIsPlain(sig);
    var p := [CREDENTIAL + cred, [' '] + SIGNED_HEADERS + names, [' '] + SIGNATURE_FIELD + sig];
    Splits(p[0], p[1], p[2]);
    JoinTrimmed(p, ',');
    assert |Join(p, ',')| > 0;
    Unwrapped(ALGORITHM, Join(p, ','));
    ThreeFields(CREDENTIAL, SIGNED_HEADERS, SIGNATURE_FIELD, cred, names, sig);
  }

  lemma {:induction false} JoinEnd(parts: seq<string>, sep: char)
    requires !IsSpace(sep) && parts != []
    requires var last := parts[|parts| - 1]; last == [] || !IsSpace(last[|last| - 1])
    ensures var s := Join(parts, sep); s == [] || !IsSpace(s[|s| - 1])
  {
    if |parts| > 1 {
      JoinEnd(parts[1..], sep);
    }
  }

  lemma JoinTrimmed(parts: seq<string>, sep: char)
    requires !IsSpace(sep) && parts != []
    requires parts[0] == [] || !IsSpace(parts[0][0])
    requires var last := parts[|parts| - 1]; last == [] || !IsSpace(last[|last| - 1])
    ensures Trimmed(Join(parts, sep))
  {
    JoinEnd(parts, sep);
    if |parts| > 1 && parts[0] != [] {
      assert Join(parts, sep)[0] == parts[0][0];
    }
  }

  /** Names that are clean one by one read back as the same list. */
  lemma NamesReadBack(names: seq<string>)
    requires names != [] && forall i :: 0 <= i < |names| ==> CleanName(names[i])
    ensures var text := Join(names, ';'); Trimmed(text) && ',' !in text && TrimLower(Split(text, ';')) == names
  {
    JoinTrimmed(names, ';');
    JoinFree(names, ';', ',');
    SplitJoin(names, ';');
    forall i | 0 <= i < |names| ensures TrimLower(names)[i] == names[i] {
      TrimResult(names[i]);
    }
  }

  lemma FiveParts(a: string, b: string, c: string, d: string, e: string)
    requires forall s :: s in [a, b, c, d, e] ==> '/' !in s && ',' !in s
    requires (a == [] || !IsSpace(a[0])) && Trimmed(e)
    ensures var cred := Join([a, b, c, d, e], '/'); Trimmed(cred) && ',' !in cred && Split(cred, '/') == [a, b, c, d, e]
  {
    var parts := [a, b, c, d, e];
    forall i | 0 <= i < |parts| ensures '/' !in parts[i] && ',' !in parts[i] {
      assert parts[i] in parts;
    }
    JoinTrimmed(parts, '/');
    JoinFree(parts, '/', ',');
    SplitJoin(parts, '/');
  }

  lemma CredentialReadsBack(m: ParsedAuth)
    requires CleanScope(m)
    ensures var cred := CredentialOf(m);
      Trimmed(cred) && ',' !in cred && Split(cred, '/') == [m.accessKeyId, m.date, m.region, m.service, SCOPE_SUFFIX]
  {
    var four := [m.accessKeyId, m.date, m.region, m.service];
    assert [m.accessKeyId, m.date, m.region, m.service, SCOPE_SUFFIX] == four + [SCOPE_SUFFIX];
    assert '/' !in SCOPE_SUFFIX && ',' !in SCOPE_SUFFIX;
    FiveParts(m.accessKeyId, m.date, m.region, m.service, SCOPE_SUFFIX);
  }

  predicate CleanHeaders(headers: seq<Header>) {
    forall i :: 0 <= i < |headers| ==> CleanName(Lower(headers[i].0))
  }

  lemma CleanSignedNames(headers: seq<Header>)
    ensures CleanHeaders(headers) <==> forall i :: 0 <= i < |SignedNames(headers)| ==> CleanName(SignedNames(headers)[i])
    ensures headers == [] <==> SignedNames(headers) == []
    ensures SortNames(SignedNames(headers)) == SignedNames(headers)
  {
    var names := SignedNames(headers);
    SignedNamesMeaning(headers);
    SortNamesOfIncreasing(names);
    if headers != [] { assert Lower(headers[0].0) in names; }
    if names != [] { assert names[0] in names; }
    if CleanHeaders(headers) {
      forall i | 0 <= i < |names| ensures CleanName(names[i]) { assert names[i] in names; }
    } else {
      var i :| 0 <= i < |headers| && !CleanName(Lower(headers[i].0));
      assert Lower(headers[i].0) in names;
    }
  }

  /** A clean scope and a clean names text are read back. */
  lemma FieldsReadBack(m: ParsedAuth, names: string)
    requires CleanScope(m) && HexText(m.signature) && Trimmed(names) && ',' !in names
    ensures AuthorizationOf(HeaderText(CredentialOf(m), names, m.signature)) == Ok(m.(signedHeaders := TrimLower(Split(names, ';'))))
  {
    CredentialReadsBack(m);
    HeaderReads(CredentialOf(m), names, m.signature);
  }

  /**
   * The receiver's parser recovers exactly the scope, the signed names and the
   * signature the signer meant, for exactly the inputs whose fields hold no
   * separator and that sign at least one header.
   */
  lemma OutboundParsesExactly(c: Crypto, q: Request, signer: Signer, datetime: string)
    requires |datetime| >= 8 && Sound(c)
    ensures AuthorizationOf(SignOutbound(c, q, signer, datetime)) == Ok(Meant(c, q, signer, datetime))
      <==> CleanScope(Meant(c, q, signer, datetime)) && CleanHeaders(q.headers) && q.headers != []
  {
    var m := Meant(c, q, signer, datetime);
    CleanSignedNames(q.headers);
    if CleanScope(m) && CleanHeaders(q.headers) && q.headers != [] {
      NamesReadBack(m.signedHeaders);
      FieldsReadBack(m, NamesText(m.signedHeaders));
    } else if AuthorizationOf(SignOutbound(c, q, signer, datetime)) == Ok(m) {
      ParsedIsClean(SignOutbound(c, q, signer, datetime));
    }
  }

  /** With no header to sign, the parser reports one empty name instead. */
  lemma NothingSigned(c: Crypto, q: Request, signer: Signer, datetime: string)
    requires |datetime| >= 8 && Sound(c) && CleanScope(Meant(c, q, signer, datetime)) && q.headers == []
    ensures AuthorizationOf(SignOutbound(c, q, signer, datetime)) == Ok(Meant(c, q, signer, datetime).(signedHeaders := [""]))
  {
    var m := Meant(c, q, signer, datetime);
    CleanSignedNames(q.headers);
    FieldsReadBack(m, "");
    assert Split("", ';') == [""] && Trim("") == "" && Lower("") == "";
    assert TrimLower([""]) == [""];
  }

  /** An empty list of headers and one empty name give the same block and names text. */
  lemma NoNames()
    ensures HeaderBlock([], [""]) == HeaderBlock([], []) && NamesText([""]) == NamesText([])
  {
    assert [""][..0] == [] && Selected([], [""]) == Selected([], []) + ValuesOf([], "");
    assert SortNames([""]) == InsertName("", SortNames([]));
  }

  /** Signed, parsed and verified: every clean request is accepted, even with no header to sign. */
  lemma OutboundRoundTrip(c: Crypto, q: Request, signer: Signer, datetime: string)
    requires |datetime| >= 8 && Sound(c) && CleanScope(Meant(c, q, signer, datetime)) && CleanHeaders(q.headers)
    ensures var p := AuthorizationOf(SignOutbound(c, q, signer, datetime));
      p.Ok? && VerifyRequest(c, q, p.value, signer.secret, datetime)
  {
    if q.headers == [] {
      NothingSigned(c, q, signer, datetime);
      CleanSignedNames(q.headers);
      NoNames();
    } else {
      OutboundParsesExactly(c, q, signer, datetime);
    }
  }

  lemma SignedNamesSignable(headers: seq<Header>)
    requires forall i :: 0 <= i < |headers| ==> Token(Lower(headers[i].0))
    ensures SignableNames(SignedNames(headers))
  {
    var names := SignedNames(headers);
    SignedNamesMeaning(headers);
    IncreasingIsDistinct(names);
    forall i | 0 <= i < |names| ensures Lower(names[i]) == names[i] && Token(names[i]) {
      assert names[i] in names;
    }
  }

  lemma IncreasingIsDistinct(names: seq<string>)
    requires Increasing(names)
    ensures forall i, j :: 0 <= i < j < |names| ==> names[i] != names[j]
  {
    forall i, j | 0 <= i < j < |names| ensures names[i] != names[j] {
      IncreasingPair(names, i, j);
      LessAsymmetric(names[i], names[j]);
    }
  }

  lemma {:induction false} IncreasingPair(names: seq<string>, i: nat, j: nat)
    requires Increasing(names) && i < j < |names|
    ensures Less(names[i], names[j])
    decreases j
  {
    if i < j - 1 {
      IncreasingPair(names, i, j - 1);
      LessTransitive(names[i], names[j - 1], names[j]);
    }
  }

  lemma QueryOneLine(q: string)
    ensures OneLine(Query.CanonicalQuery(q))
  {
    if q != [] {
      Query.CanonicalOneLine(Query.FormParse(q));
    }
  }

  /**
   * The receiver accepts a request under the signer's header exactly when it
   * agrees with the request that was signed: same method, path and payload hash,
   * the same query pairs in any order, and the same values for every signed name.
   */
  lemma OutboundAcceptedExactly(c: Crypto, q: Request, signer: Signer, datetime: string, received: Request)
    requires |datetime| >= 8 && Sound(c) && Bytewise(c)
    requires forall i :: 0 <= i < |q.headers| ==> Token(Lower(q.headers[i].0))
    requires OneLine(q.verb) && OneLine(q.path) && OneLine(q.payload) && OneLineValues(q.headers) && IsBytes(q.query)
    requires OneLine(received.verb) && OneLine(received.path) && OneLine(received.payload)
    requires OneLineValues(received.headers) && IsBytes(received.query)
    requires Distinguished(c, Canonicalised(received), Canonicalised(q), SignedNames(q.headers),
                           Scope(signer.secret, datetime[..8], signer.region, signer.service, datetime))
    ensures VerifyRequest(c, received, Meant(c, q, signer, datetime), signer.secret, datetime) <==>
      && received.verb == q.verb && CanonicalUri(received.path) == CanonicalUri(q.path) && received.payload == q.payload
      && multiset(Query.FormParse(received.query)) == multiset(Query.FormParse(q.query))
      && SameValues(received.headers, q.headers, SignedNames(q.headers))
  {
    SignedNamesSignable(q.headers);
    QueryOneLine(q.query);
    QueryOneLine(received.query);
    Query.CanonicalQueryComplete(received.query, q.query);
    SignatureBinds(c, Canonicalised(received), Canonicalised(q), SignedNames(q.headers),
                   Scope(signer.secret, datetime[..8], signer.region, signer.service, datetime));
  }

  // ----- the documented format, and what verification compares -----

  /** The header text is the documented one. */
  lemma HeaderTextFlat(ak: string, date: string, region: string, service: string, names: string, sig: string)
    ensures HeaderText(CredentialOf(ParsedAuth(ak, date, region, service, [], "")), names, sig) ==
      "AWS4-HMAC-SHA256" + " " + "Credential=" + (ak + "/" + date + "/" + region + "/" + service + "/" + "aws4_request")
      + "," + " " + "SignedHeaders=" + names + "," + " " + "Signature=" + sig
  {
    FiveFlat(ak, date, region, service, SCOPE_SUFFIX);
    var cred := ak + "/" + date + "/" + region + "/" + service + "/" + SCOPE_SUFFIX;
    ThreeFlat(ALGORITHM + [' '], CREDENTIAL + cred, [' '] + SIGNED_HEADERS + names, [' '] + SIGNATURE_FIELD + sig);
    FieldsFlat(ALGORITHM, CREDENTIAL, cred, SIGNED_HEADERS, names, SIGNATURE_FIELD, sig);
  }

  lemma FiveFlat(a: string, b: string, c: string, d: string, e: string)
    ensures Join([a, b, c, d, e], '/') == a + "/" + b + "/" + c + "/" + d + "/" + e
  {
    ScopeFlat(a, b, c, d);
    JoinSnoc([a, b, c, d], e, '/');
    assert [a, b, c, d] + [e] == [a, b, c, d, e];
  }

  lemma ThreeFlat(h: string, a: string, b: string, c: string)
    ensures h + Join([a, b, c], ',') == h + a + "," + b + "," + c
  {
    JoinSnoc([a], b, ',');
    JoinSnoc([a, b], c, ',');
    assert [a] + [b] == [a, b] && [a, b] + [c] == [a, b, c];
    assert h + (a + "," + b + "," + c) == h + a + "," + b + "," + c;
  }

  lemma FieldsFlat(alg: string, t0: string, v0: string, t1: string, v1: string, t2: string, v2: string)
    ensures alg + [' '] + (t0 + v0) + "," + ([' '] + t1 + v1) + "," + ([' '] + t2 + v2) ==
      alg + " " + t0 + v0 + "," + " " + t1 + v1 + "," + " " + t2 + v2
  {
    var x := alg + " " + t0 + v0 + ",";
    assert alg + [' '] + (t0 + v0) + "," == x;
    var y := x + " " + t1 + v1 + ",";
    assert x + ([' '] + t1 + v1) + "," == y;
    assert y + ([' '] + t2 + v2) == y + " " + t2 + v2;
  }

  /**
   * Verification compares the given signature with the hash of the string to
   * sign under the key derived from the secret and the parsed scope.
   */
  lemma VerifyMeans(c: Crypto, q: Request, auth: ParsedAuth, secret: string, datetime: string)
    requires Recording(c)
    ensures VerifyRequest(c, q, auth, secret, datetime) <==>
      auth.signature == HexEncode(
        "AWS4" + secret + "|" + auth.date + "|" + auth.region + "|" + auth.service + "|" + "aws4_request" + "|" +
        ToSign(c, q.(query := Query.CanonicalQuery(q.query)), auth.signedHeaders,
               Scope(secret, auth.date, auth.region, auth.service, datetime)))
  {
    var s := Scope(secret, auth.date, auth.region, auth.service, datetime);
    KeyDerivation(c, s);
    RecordedSignature(c, KeyOf(c, s), ToSign(c, Canonicalised(q), auth.signedHeaders, s));
  }

  /** What is sent is the documented text, with the day, the scope, the names and the signature of the canonicalised request. */
  lemma OutboundText(c: Crypto, q: Request, signer: Signer, datetime: string)
    requires |datetime| >= 8
    ensures var names := SignedNames(q.headers);
      SignOutbound(c, q, signer, datetime) ==
      "AWS4-HMAC-SHA256" + " " + "Credential="
      + (signer.keyId + "/" + datetime[..8] + "/" + signer.region + "/" + signer.service + "/" + "aws4_request")
      + "," + " " + "SignedHeaders=" + NamesText(names) + "," + " " + "Signature="
      + Signature(c, q.(query := Query.CanonicalQuery(q.query)), names,
                  Scope(signer.secret, datetime[..8], signer.region, signer.service, datetime))
  {
    var m := Meant(c, q, signer, datetime);
    HeaderTextFlat(m.accessKeyId, m.date, m.region, m.service, NamesText(m.signedHeaders), m.signature);
  }
}
