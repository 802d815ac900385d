// The two parsers of authentication data: the Authorization header and the
// query string of a presigned URL.
module AuthParse {
  import opened Wrappers
  import opened Text
  import Query

  datatype ParsedAuth = ParsedAuth(accessKeyId: string, date: string, region: string, service: string,
                                   signedHeaders: seq<string>, signature: string)

  datatype ParsedQueryAuth = ParsedQueryAuth(auth: ParsedAuth, expires: nat, datetime: string)

  datatype Fault =
    | MissingAlgorithm | UnsupportedAlgorithm | MissingCredential | ScopeParts | ScopeSuffix
    | MissingDate | EmptyDate | MissingExpires | InvalidExpires
    | MissingSignedHeaders | MissingSignature | EmptySignature

  datatype Result<+T> = Ok(value: T) | Err(fault: Fault)

  function TrimLower(ns: seq<string>): (r: seq<string>)
    ensures |r| == |ns| && forall i :: 0 <= i < |ns| ==> r[i] == Lower(Trim(ns[i]))
  {
    seq(|ns|, i requires 0 <= i < |ns| => Lower(Trim(ns[i])))
  }

  const ALGORITHM := "AWS4-HMAC-SHA256"
  const CREDENTIAL := "Credential="
  const SIGNED_HEADERS := "SignedHeaders="
  const SIGNATURE_FIELD := "Signature="
  const SCOPE_SUFFIX := "aws4_request"

  /** The value of the last piece that carries `prefix`. */
  function LastField(pieces: seq<string>, prefix: string): Option<string> {
    if pieces == [] then None
    else
      var field := StripPrefix(Trim(pieces[|pieces| - 1]), prefix);
      if field.Some? then Some(Trim(field.value)) else LastField(pieces[..|pieces| - 1], prefix)
  }

  /** The checks common to both parsers, in their order. */
  function HeaderAuth(credential: Option<string>, signedHeaders: Option<string>, signature: Option<string>): Result<ParsedAuth> {
    if credential.None? then Err(MissingCredential)
    else
      var parts := Split(credential.value, '/');
      if |parts| != 5 then Err(ScopeParts)
      else if parts[4] != SCOPE_SUFFIX then Err(ScopeSuffix)
      else if signedHeaders.None? then Err(MissingSignedHeaders)
      else if signature.None? then Err(MissingSignature)
      else if signature.value == [] then Err(EmptySignature)
      else Ok(ParsedAuth(parts[0], parts[1], parts[2], parts[3], TrimLower(Split(signedHeaders.value, ';')), signature.value))
  }

  function AuthorizationOf(header: string): Result<ParsedAuth> {
    var rest := StripPrefix(Trim(header), ALGORITHM);
    if rest.None? then Err(MissingAlgorithm)
    else
      var pieces := Split(TrimStart(rest.value), ',');
      HeaderAuth(LastField(pieces, CREDENTIAL), LastField(pieces, SIGNED_HEADERS), LastField(pieces, SIGNATURE_FIELD))
  }

  /** No piece carries two of the three prefixes. */
  lemma PrefixesExclusive(p: string)
    ensures !(CREDENTIAL <= p && SIGNED_HEADERS <= p)
    ensures !(CREDENTIAL <= p && SIGNATURE_FIELD <= p)
    ensures !(SIGNED_HEADERS <= p && SIGNATURE_FIELD <= p)
  {
    assert CREDENTIAL[0] == 'C' && SIGNED_HEADERS[0] == 'S' && SIGNATURE_FIELD[0] == 'S';
    assert SIGNED_HEADERS[4] == 'e' && SIGNATURE_FIELD[4] == 'a';
  }

  method ParseAuthorization(header: string) returns (r: Result<ParsedAuth>)
    ensures r == AuthorizationOf(header)
  {
    var rest := StripPrefix(Trim(header), ALGORITHM);
    if rest.None? { return Err(MissingAlgorithm); }
    var pieces := Split(TrimStart(rest.value), ',');
    var credential, signedHeaders, signature := None, None, None;
    for i := 0 to |pieces|
      invariant credential == LastField(pieces[..i], CREDENTIAL)
      invariant signedHeaders == LastField(pieces[..i], SIGNED_HEADERS)
      invariant signature == LastField(pieces[..i], SIGNATURE_FIELD)
    {
      assert pieces[..i + 1][..i] == pieces[..i];
      var part := Trim(pieces[i]);
      PrefixesExclusive(part);
      var val := StripPrefix(part, CREDENTIAL);
      if val.Some? {
        credential := Some(Trim(val.value));
      } else {
        val := StripPrefix(part, SIGNED_HEADERS);
        if val.Some? {
          signedHeaders := Some(Trim(val.value));
        } else {
          val := StripPrefix(part, SIGNATURE_FIELD);
          if val.Some? {
            signature := Some(Trim(val.value));
          }
        }
      }
    }
    assert pieces[..|pieces|] == pieces;
    r := HeaderAuth(credential, signedHeaders, signature);
  }

  /** What the header parser can return: no separator survives in a field. */
  predicate CleanScope(p: ParsedAuth) {
    && (forall s :: s in [p.accessKeyId, p.date, p.region, p.service] ==> '/' !in s && ',' !in s)
    && (p.accessKeyId == [] || !IsSpace(p.accessKeyId[0]))
  }

  predicate CleanName(n: string) {
    ';' !in n && ',' !in n && Trimmed(n) && Lower(n) == n
  }

  lemma {:induction false} LastFieldIsPiece(pieces: seq<string>, prefix: string)
    requires LastField(pieces, prefix).Some? && forall i :: 0 <= i < |pieces| ==> ',' !in pieces[i]
    ensures ',' !in LastField(pieces, prefix).value && Trimmed(LastField(pieces, prefix).value)
  {
    var last := pieces[|pieces| - 1];
    var field := StripPrefix(Trim(last), prefix);
    if field.Some? {
      TrimKeeps(last, ',');
      TrimKeeps(field.value, ',');
      TrimResult(field.value);
    } else {
      LastFieldIsPiece(pieces[..|pieces| - 1], prefix);
    }
  }

  lemma NameIsClean(text: string, i: nat)
    requires ',' !in text && i < |Split(text, ';')|
    ensures CleanName(Lower(Trim(Split(text, ';')[i])))
  {
    SplitPieces(text, ';');
    SplitKeeps(text, ';', ',');
    var piece := Split(text, ';')[i];
    TrimKeeps(piece, ';');
    TrimKeeps(piece, ',');
    TrimResult(piece);
    LowerKeeps(Trim(piece));
  }

  lemma ScopeIsClean(credential: string)
    requires ',' !in credential && Trimmed(credential)
    ensures forall i :: 0 <= i < |Split(credential, '/')| ==> '/' !in Split(credential, '/')[i] && ',' !in Split(credential, '/')[i]
    ensures Split(credential, '/')[0] == [] || !IsSpace(Split(credential, '/')[0][0])
  {
    SplitPieces(credential, '/');
    SplitKeeps(credential, '/', ',');
    SplitStart(credential, '/');
  }

  lemma NamesAreClean(text: string)
    requires ',' !in text
    ensures forall i :: 0 <= i < |Split(text, ';')| ==> CleanName(TrimLower(Split(text, ';'))[i])
  {
    forall i | 0 <= i < |Split(text, ';')| ensures CleanName(TrimLower(Split(text, ';'))[i]) {
      NameIsClean(text, i);
    }
  }

  /** Whatever the header, a successful parse returns clean fields. */
  lemma ParsedIsClean(header: string)
    requires AuthorizationOf(header).Ok?
    ensures var p := AuthorizationOf(header).value;
      CleanScope(p) && p.signedHeaders != [] && forall i :: 0 <= i < |p.signedHeaders| ==> CleanName(p.signedHeaders[i])
  {
    var rest := TrimStart(StripPrefix(Trim(header), ALGORITHM).value);
    var pieces := Split(rest, ',');
    SplitPieces(rest, ',');
    LastFieldIsPiece(pieces, CREDENTIAL);
    LastFieldIsPiece(pieces, SIGNED_HEADERS);
    ScopeIsClean(LastField(pieces, CREDENTIAL).value);
    NamesAreClean(LastField(pieces, SIGNED_HEADERS).value);
  }

  // ----- the query string of a presigned URL -----

  const SIGNATURE := "X-Amz-Signature"

  function LastValue(pairs: seq<Query.Pair>, name: string): Option<string> {
    if pairs == [] then None
    else if pairs[|pairs| - 1].0 == name then Some(pairs[|pairs| - 1].1)
    else LastValue(pairs[..|pairs| - 1], name)
  }

  /** The checks on the six parameters, in their order. */
  function QueryAuth(algorithm: Option<string>, credential: Option<string>, date: Option<string>, expires: Option<string>,
                     signedHeaders: Option<string>, signature: Option<string>): Result<ParsedQueryAuth>
  {
    if algorithm.None? then Err(MissingAlgorithm)
    else if algorithm.value != ALGORITHM then Err(UnsupportedAlgorithm)
    else if credential.None? then Err(MissingCredential)
    else
      var parts := Split(credential.value, '/');
      if |parts| != 5 then Err(ScopeParts)
      else if parts[4] != SCOPE_SUFFIX then Err(ScopeSuffix)
      else if date.None? then Err(MissingDate)
      else if date.value == [] then Err(EmptyDate)
      else if expires.None? then Err(MissingExpires)
      else if ParseU64(expires.value).None? then Err(InvalidExpires)
      else if signedHeaders.None? then Err(MissingSignedHeaders)
      else if signature.None? then Err(MissingSignature)
      else if signature.value == [] then Err(EmptySignature)
      else Ok(ParsedQueryAuth(
        ParsedAuth(parts[0], parts[1], parts[2], parts[3], TrimLower(Split(signedHeaders.value, ';')), signature.value),
        ParseU64(expires.value).value, date.value))
  }

  function QueryAuthOf(query: string): Result<ParsedQueryAuth> {
    var pairs := Query.FormParse(query);
    QueryAuth(LastValue(pairs, "X-Amz-Algorithm"), LastValue(pairs, "X-Amz-Credential"), LastValue(pairs, "X-Amz-Date"),
              LastValue(pairs, "X-Amz-Expires"), LastValue(pairs, "X-Amz-SignedHeaders"), LastValue(pairs, SIGNATURE))
  }

  method ParseQueryStringAuth(query: string) returns (r: Result<ParsedQueryAuth>)
    ensures r == QueryAuthOf(query)
  {
    var pairs := Query.FormParse(query);
    var algorithm, credential, date := None, None, None;
    var expires, signedHeaders, signature := None, None, None;
    for i := 0 to |pairs|
      invariant algorithm == LastValue(pairs[..i], "X-Amz-Algorithm")
      invariant credential == LastValue(pairs[..i], "X-Amz-Credential")
      invariant date == LastValue(pairs[..i], "X-Amz-Date")
      invariant expires == LastValue(pairs[..i], "X-Amz-Expires")
      invariant signedHeaders == LastValue(pairs[..i], "X-Amz-SignedHeaders")
      invariant signature == LastValue(pairs[..i], SIGNATURE)
    {
      assert pairs[..i + 1][..i] == pairs[..i];
      var (key, value) := pairs[i];
      NamesDiffer(key);
      if key == "X-Amz-Algorithm" { algorithm := Some(value); }
      else if key == "X-Amz-Credential" { credential := Some(value); }
      else if key == "X-Amz-Date" { date := Some(value); }
      else if key == "X-Amz-Expires" { expires := Some(value); }
      else if key == "X-Amz-SignedHeaders" { signedHeaders := Some(value); }
      else if key == SIGNATURE { signature := Some(value); }
    }
    assert pairs[..|pairs|] == pairs;
    r := QueryAuth(algorithm, credential, date, expires, signedHeaders, signature);
  }

  lemma NamesDiffer(key: string)
    ensures key == "X-Amz-Algorithm" ==> |key| == 15 && key[6] == 'A'
    ensures key == "X-Amz-Credential" ==> |key| == 16
    ensures key == "X-Amz-Date" ==> |key| == 10
    ensures key == "X-Amz-Expires" ==> |key| == 13
    ensures key == "X-Amz-SignedHeaders" ==> |key| == 19
    ensures key == SIGNATURE ==> |key| == 15 && key[6] == 'S'
  {
  }

  /** A scope is accepted exactly when it is the four fields and the final marker between slashes. */
  lemma ScopeExactly(credential: string, names: string, signature: string, p: ParsedAuth)
    ensures HeaderAuth(Some(credential), Some(names), Some(signature)) == Ok(p) <==>
      && credential == Join([p.accessKeyId, p.date, p.region, p.service, "aws4_request"], '/')
      && '/' !in p.accessKeyId && '/' !in p.date && '/' !in p.region && '/' !in p.service
      && p.signedHeaders == TrimLower(Split(names, ';')) && p.signature == signature && signature != ""
  {
    var parts := [p.accessKeyId, p.date, p.region, p.service, "aws4_request"];
    SplitPieces(credential, '/');
    var got := Split(credential, '/');
    if |got| == 5 {
      assert got == [got[0], got[1], got[2], got[3], got[4]];
    }
    if '/' !in p.accessKeyId && '/' !in p.date && '/' !in p.region && '/' !in p.service {
      assert '/' !in "aws4_request";
      SplitJoin(parts, '/');
    }
  }
}
