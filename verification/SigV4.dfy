// AWS Signature Version 4: canonical headers, canonical requests and their
// signature.  HMAC and SHA-256 are parameters.
module SigV4 {
  import opened Text
  import opened Order

  /** The keyed and the plain hash, as functions of bytes. */
  datatype Crypto = Crypto(hmac: (string, string) -> string, sha256: string -> string)

  function HexSha256(c: Crypto, data: string): string {
    HexEncode(c.sha256(data))
  }

  function SigningKey(c: Crypto, secret: string, date: string, region: string, service: string): string {
    c.hmac(c.hmac(c.hmac(c.hmac("AWS4" + secret, date), region), service), "aws4_request")
  }

  function ComputeSignature(c: Crypto, key: string, sts: string): string {
    HexEncode(c.hmac(key, sts))
  }

  function StringToSign(datetime: string, scope: string, hash: string): string {
    "AWS4-HMAC-SHA256\n" + datetime + "\n" + scope + "\n" + hash
  }

  function ScopeText(date: string, region: string, service: string): string {
    Join([date, region, service, "aws4_request"], '/')
  }

  // ----- headers -----

  type Header = (string, string)

  /** Runs of spaces become one; `after`: the previous character was a space. */
  function Collapse(s: string, after: bool): string {
    if s == [] then []
    else if s[0] == ' ' then (if after then [] else " ") + Collapse(s[1..], true)
    else [s[0]] + Collapse(s[1..], false)
  }

  function HeaderValue(v: string): string {
    Collapse(Trim(v), false)
  }

  lemma {:induction false} CollapseStep(s: string, c: char, after: bool)
    ensures Collapse(s + [c], after) ==
      Collapse(s, after) + if c != ' ' then [c] else if EndsInSpace(s, after) then [] else " "
  {
    if s == [] {
      assert s + [c] == [c] && [c][1..] == [];
    } else {
      assert (s + [c])[1..] == s[1..] + [c];
      CollapseStep(s[1..], c, s[0] == ' ');
    }
  }

  predicate EndsInSpace(s: string, after: bool) {
    if s == [] then after else s[|s| - 1] == ' '
  }

  method TrimHeaderValue(value: string) returns (result: string)
    ensures result == HeaderValue(value)
  {
    var trimmed := Trim(value);
    result := "";
    var prevSpace := false;
    for i := 0 to |trimmed|
      invariant prevSpace == EndsInSpace(trimmed[..i], false)
      invariant result == Collapse(trimmed[..i], false)
    {
      var c := trimmed[i];
      assert trimmed[..i + 1] == trimmed[..i] + [c];
      CollapseStep(trimmed[..i], c, false);
      if c == ' ' {
        if !prevSpace {
          result := result + " ";
        }
        prevSpace := true;
      } else {
        result := result + [c];
        prevSpace := false;
      }
    }
    assert trimmed[..|trimmed|] == trimmed;
  }

  /** No white space at the ends and no two spaces in a row. */
  predicate Tidy(s: string) {
    Trimmed(s) && forall i :: 0 <= i < |s| - 1 ==> !(s[i] == ' ' && s[i + 1] == ' ')
  }

  lemma {:induction false} CollapseTidies(s: string, after: bool)
    requires s != [] && !IsSpace(s[|s| - 1])
    ensures var r := Collapse(s, after);
      && r != [] && !IsSpace(r[|r| - 1])
      && (after ==> r[0] != ' ')
      && (!IsSpace(s[0]) ==> r[0] == s[0])
      && forall i :: 0 <= i < |r| - 1 ==> !(r[i] == ' ' && r[i + 1] == ' ')
  {
    if |s| > 1 {
      CollapseTidies(s[1..], s[0] == ' ');
    }
  }

  lemma {:induction false} CollapseOfTidy(s: string, after: bool)
    requires forall i :: 0 <= i < |s| - 1 ==> !(s[i] == ' ' && s[i + 1] == ' ')
    requires after && s != [] ==> s[0] != ' '
    ensures Collapse(s, after) == s
  {
    if s != [] {
      assert s[1..] != [] ==> s[1..][0] == s[1];
      CollapseOfTidy(s[1..], s[0] == ' ');
      assert s == [s[0]] + s[1..];
    }
  }

  /** The canonical value is tidy, and canonicalising it again changes nothing. */
  lemma HeaderValueCanonical(v: string)
    ensures Tidy(HeaderValue(v)) && HeaderValue(HeaderValue(v)) == HeaderValue(v)
  {
    TrimResult(v);
    if Trim(v) != [] {
      CollapseTidies(Trim(v), false);
    }
    TrimResult(HeaderValue(v));
    CollapseOfTidy(HeaderValue(v), false);
  }

  /** The values of one header name, in the order sent. */
  function ValuesOf(headers: seq<Header>, lower: string): seq<Header> {
    if headers == [] then []
    else
      var last := headers[|headers| - 1];
      ValuesOf(headers[..|headers| - 1], lower) + if Lower(last.0) == lower then [(lower, HeaderValue(last.1))] else []
  }

  function Selected(headers: seq<Header>, names: seq<string>): seq<Header> {
    if names == [] then []
    else Selected(headers, names[..|names| - 1]) + ValuesOf(headers, Lower(names[|names| - 1]))
  }

  function InsertByName(h: Header, hs: seq<Header>): seq<Header> {
    if hs == [] then [h]
    else if !Less(hs[0].0, h.0) then [h] + hs
    else [hs[0]] + InsertByName(h, hs[1..])
  }

  /** Stable sort by name. */
  function SortByName(hs: seq<Header>): seq<Header> {
    if hs == [] then [] else InsertByName(hs[0], SortByName(hs[1..]))
  }

  function Line(h: Header): string {
    h.0 + ":" + h.1
  }

  function Lines(hs: seq<Header>): string {
    if hs == [] then "" else Lines(hs[..|hs| - 1]) + (Line(hs[|hs| - 1]) + "\n")
  }

  lemma LinesSnoc(hs: seq<Header>, h: Header)
    ensures Lines(hs + [h]) == Lines(hs) + h.0 + ":" + h.1 + "\n"
  {
    assert (hs + [h])[..|hs|] == hs;
  }

  function HeaderBlock(headers: seq<Header>, names: seq<string>): string {
    Lines(SortByName(Selected(headers, names)))
  }

  method CanonicalHeaders(headers: seq<Header>, names: seq<string>) returns (result: string)
    ensures result == HeaderBlock(headers, names)
  {
    var selected: seq<Header> := [];
    for i := 0 to |names|
      invariant selected == Selected(headers, names[..i])
    {
      var lower := Lower(names[i]);
      assert names[..i + 1][..i] == names[..i];
      for j := 0 to |headers|
        invariant selected == Selected(headers, names[..i]) + ValuesOf(headers[..j], lower)
      {
        assert headers[..j + 1][..j] == headers[..j];
        if Lower(headers[j].0) == lower {
          var v := TrimHeaderValue(headers[j].1);
          selected := selected + [(lower, v)];
        }
      }
      assert headers[..|headers|] == headers;
    }
    assert names[..|names|] == names;
    var sorted := SortByName(selected);
    result := "";
    for i := 0 to |sorted|
      invariant result == Lines(sorted[..i])
    {
      LinesSnoc(sorted[..i], sorted[i]);
      assert sorted[..i + 1] == sorted[..i] + [sorted[i]];
      result := result + sorted[i].0;
      result := result + ":";
      result := result + sorted[i].1;
      result := result + "\n";
    }
    assert sorted[..|sorted|] == sorted;
  }

  /** Two headers the canonical form cannot tell apart. */
  predicate Alike(a: Header, b: Header) {
    Lower(a.0) == Lower(b.0) && HeaderValue(a.1) == HeaderValue(b.1)
  }

  /** Case of names and extra spaces in values do not reach the signature. */
  lemma {:induction false} ValuesOfAlike(a: seq<Header>, b: seq<Header>, lower: string)
    requires |a| == |b| && forall i :: 0 <= i < |a| ==> Alike(a[i], b[i])
    ensures ValuesOf(a, lower) == ValuesOf(b, lower)
  {
    if a != [] {
      ValuesOfAlike(a[..|a| - 1], b[..|b| - 1], lower);
    }
  }

  lemma {:induction false} HeaderBlockAlike(a: seq<Header>, b: seq<Header>, names: seq<string>)
    requires |a| == |b| && forall i :: 0 <= i < |a| ==> Alike(a[i], b[i])
    ensures Selected(a, names) == Selected(b, names) && HeaderBlock(a, names) == HeaderBlock(b, names)
  {
    if names != [] {
      HeaderBlockAlike(a, b, names[..|names| - 1]);
      ValuesOfAlike(a, b, Lower(names[|names| - 1]));
    }
  }

  // ----- header names -----

  function InsertName(n: string, ns: seq<string>): seq<string> {
    if ns == [] then [n]
    else if !Less(ns[0], n) then [n] + ns
    else [ns[0]] + InsertName(n, ns[1..])
  }

  function SortNames(ns: seq<string>): seq<string> {
    if ns == [] then [] else InsertName(ns[0], SortNames(ns[1..]))
  }

  /** Drops a name equal to the one kept before it. */
  function Dedup(ns: seq<string>): seq<string> {
    if |ns| <= 1 then ns
    else if ns[0] == ns[1] then Dedup(ns[1..])
    else [ns[0]] + Dedup(ns[1..])
  }

  function LowerNames(headers: seq<Header>): (r: seq<string>)
    ensures |r| == |headers| && forall i :: 0 <= i < |r| ==> r[i] == Lower(headers[i].0)
  {
    seq(|headers|, i requires 0 <= i < |headers| => Lower(headers[i].0))
  }

  function SignedNames(headers: seq<Header>): seq<string> {
    Dedup(SortNames(LowerNames(headers)))
  }

  function NamesText(names: seq<string>): string {
    Join(SortNames(names), ';')
  }

  /** Strictly increasing: sorted and without repeats. */
  ghost predicate Increasing(ns: seq<string>) {
    forall i :: 0 < i < |ns| ==> Less(ns[i - 1], ns[i])
  }

  ghost predicate Ascending(ns: seq<string>) {
    forall i :: 0 < i < |ns| ==> !Less(ns[i], ns[i - 1])
  }

  lemma {:induction false} InsertNameAscending(n: string, ns: seq<string>)
    requires Ascending(ns)
    ensures Ascending(InsertName(n, ns))
    ensures forall x :: x in InsertName(n, ns) <==> x == n || x in ns
    ensures InsertName(n, ns) != [] && InsertName(n, ns)[0] == if ns == [] || !Less(ns[0], n) then n else ns[0]
  {
    if ns != [] && Less(ns[0], n) {
      InsertNameAscending(n, ns[1..]);
      LessAsymmetric(ns[0], n);
      var r := InsertName(n, ns[1..]);
      assert !Less(r[0], ns[0]) by { assert |ns| > 1 ==> ns[1] == ns[1..][0]; }
      assert ns == [ns[0]] + ns[1..];
    }
  }

  lemma {:induction false} SortNamesAscending(ns: seq<string>)
    ensures Ascending(SortNames(ns)) && forall x :: x in SortNames(ns) <==> x in ns
  {
    if ns != [] {
      SortNamesAscending(ns[1..]);
      InsertNameAscending(ns[0], SortNames(ns[1..]));
      assert ns == [ns[0]] + ns[1..];
    }
  }

  lemma {:induction false} DedupIncreasing(ns: seq<string>)
    requires Ascending(ns)
    ensures Increasing(Dedup(ns)) && forall x :: x in Dedup(ns) <==> x in ns
    ensures ns != [] ==> Dedup(ns) != [] && Dedup(ns)[0] == ns[0]
  {
    if |ns| > 1 {
      DedupIncreasing(ns[1..]);
      assert ns == [ns[0]] + ns[1..];
      LessTotal(ns[0], ns[1]);
    }
  }

  /** The signed names are the lower-cased names, strictly sorted. */
  lemma SignedNamesMeaning(headers: seq<Header>)
    ensures Increasing(SignedNames(headers))
    ensures forall x :: x in SignedNames(headers) <==> exists i :: 0 <= i < |headers| && x == Lower(headers[i].0)
  {
    SortNamesAscending(LowerNames(headers));
    DedupIncreasing(SortNames(LowerNames(headers)));
  }

  lemma {:induction false} SortNamesOfIncreasing(ns: seq<string>)
    requires Increasing(ns)
    ensures SortNames(ns) == ns
  {
    if ns != [] {
      assert forall i :: 0 < i < |ns| - 1 ==> Less(ns[1..][i - 1], ns[1..][i]) by {
        assert forall i :: 0 < i < |ns| - 1 ==> ns[1..][i - 1] == ns[i] && ns[1..][i] == ns[i + 1];
      }
      SortNamesOfIncreasing(ns[1..]);
      if |ns| > 1 {
        LessAsymmetric(ns[0], ns[1]);
      }
      assert ns == [ns[0]] + ns[1..];
    }
  }

  // ----- requests -----

  function CanonicalUri(path: string): string {
    if path == [] then "/" else path
  }

  function RequestText(verb: string, path: string, query: string, block: string, names: string, payload: string): string {
    verb + "\n" + (CanonicalUri(path) + "\n" + (query + "\n" + (block + "\n" + names + "\n" + payload)))
  }

  /** A request with its query already canonical. */
  datatype Request = Request(verb: string, path: string, query: string, headers: seq<Header>, payload: string)

  /** What the signing key and the string to sign are made from besides the request. */
  datatype Scope = Scope(secret: string, date: string, region: string, service: string, datetime: string)

  function TextOf(r: Request, names: seq<string>): string {
    RequestText(r.verb, r.path, r.query, HeaderBlock(r.headers, names), NamesText(names), r.payload)
  }

  function KeyOf(c: Crypto, s: Scope): string {
    SigningKey(c, s.secret, s.date, s.region, s.service)
  }

  function ToSign(c: Crypto, r: Request, names: seq<string>, s: Scope): string {
    StringToSign(s.datetime, ScopeText(s.date, s.region, s.service), HexSha256(c, TextOf(r, names)))
  }

  function Signature(c: Crypto, r: Request, names: seq<string>, s: Scope): string {
    ComputeSignature(c, KeyOf(c, s), ToSign(c, r, names, s))
  }

  // ----- the parts against plain descriptions -----

  /** The words between spaces. */
  function Words(pieces: seq<string>): seq<string> {
    if pieces == [] then [] else (if pieces[0] == [] then [] else [pieces[0]]) + Words(pieces[1..])
  }

  lemma WordsOfSpace(s: string)
    requires s != [] && s[0] == ' '
    ensures Words(Split(s, ' ')) == Words(Split(s[1..], ' '))
  {
    var rest := Split(s[1..], ' ');
    assert Split(s, ' ') == [""] + rest && ([""] + rest)[1..] == rest;
  }

  lemma WordsOfChar(s: string)
    requires s != [] && s[0] != ' '
    ensures var w, whole := Words(Split(s[1..], ' ')), Words(Split(s, ' '));
      && (s[1..] == [] || s[1] == ' ' ==> whole == [[s[0]]] + w)
      && (s[1..] != [] && s[1] != ' ' ==> w != [] && whole == [[s[0]] + w[0]] + w[1..])
  {
    var rest := Split(s[1..], ' ');
    var all := [[s[0]] + rest[0]] + rest[1..];
    assert Split(s, ' ') == all && all[1..] == rest[1..];
    if s[1..] == [] || s[1] == ' ' {
      assert rest[0] == "" && Words(rest) == Words(rest[1..]) && [s[0]] + rest[0] == [s[0]];
    } else {
      assert rest[0] != [] && Words(rest) == [rest[0]] + Words(rest[1..]);
    }
  }

  lemma {:induction false} CollapseIsWords(s: string, after: bool)
    requires s == [] || s[|s| - 1] != ' '
    ensures Collapse(s, after) == (if !after && s != [] && s[0] == ' ' then " " else "") + Join(Words(Split(s, ' ')), ' ')
    ensures s != [] ==> Words(Split(s, ' ')) != []
  {
    if s == [] {
      assert Split(s, ' ') == [""] && Words([""]) == [] + Words([""][1..]);
    } else if s[0] == ' ' {
      CollapseIsWords(s[1..], true);
      WordsOfSpace(s);
    } else {
      CollapseIsWords(s[1..], false);
      WordsOfChar(s);
      CollapseChar(s[0], Words(Split(s[1..], ' ')));
    }
  }

  /** Prefixing one character to joined words. */
  lemma CollapseChar(c: char, w: seq<string>)
    ensures w == [] ==> Join([[c]] + w, ' ') == [c]
    ensures w != [] ==> Join([[c]] + w, ' ') == [c] + (" " + Join(w, ' '))
    ensures w != [] ==> Join([[c] + w[0]] + w[1..], ' ') == [c] + Join(w, ' ')
  {
    if w == [] {
      assert [[c]] + w == [[c]];
    } else {
      JoinAfter(c, w);
      JoinGrows(c, w);
    }
  }

  lemma JoinAfter(c: char, w: seq<string>)
    requires w != []
    ensures Join([[c]] + w, ' ') == [c] + (" " + Join(w, ' '))
  {
    assert ([[c]] + w)[1..] == w;
    Regroup([c], " ", Join(w, ' '));
  }

  lemma JoinGrows(c: char, w: seq<string>)
    requires w != []
    ensures Join([[c] + w[0]] + w[1..], ' ') == [c] + Join(w, ' ')
  {
    assert ([[c] + w[0]] + w[1..])[1..] == w[1..];
    if |w| > 1 {
      assert [c] + w[0] + [' '] + Join(w[1..], ' ') == [c] + (w[0] + [' '] + Join(w[1..], ' '));
    }
  }

  /** A canonical header value is the words of the trimmed value, joined by single spaces. */
  lemma HeaderValueIsWords(v: string)
    ensures HeaderValue(v) == Join(Words(Split(Trim(v), ' ')), ' ')
  {
    TrimResult(v);
    CollapseIsWords(Trim(v), false);
  }

  /** The signed headers are written in ascending order of names, none added and none lost. */
  lemma {:induction false} SortByNameSorts(hs: seq<Header>)
    ensures multiset(SortByName(hs)) == multiset(hs)
    ensures forall i :: 0 < i < |SortByName(hs)| ==> !Less(SortByName(hs)[i].0, SortByName(hs)[i - 1].0)
  {
    if hs != [] {
      SortByNameSorts(hs[1..]);
      InsertByNameSorts(hs[0], SortByName(hs[1..]));
      assert hs == [hs[0]] + hs[1..];
    }
  }

  lemma {:induction false} InsertByNameSorts(h: Header, hs: seq<Header>)
    requires forall i :: 0 < i < |hs| ==> !Less(hs[i].0, hs[i - 1].0)
    ensures var r := InsertByName(h, hs);
      && multiset(r) == multiset{h} + multiset(hs)
      && r != [] && r[0] in {h} + (if hs == [] then {} else {hs[0]})
      && forall i :: 0 < i < |r| ==> !Less(r[i].0, r[i - 1].0)
  {
    if hs != [] && Less(hs[0].0, h.0) {
      LessAsymmetric(hs[0].0, h.0);
      InsertByNameSorts(h, hs[1..]);
      assert hs == [hs[0]] + hs[1..];
    }
  }

  /** A keyed hash that merely records what it is given. */
  ghost predicate Recording(c: Crypto) {
    forall k, m :: c.hmac(k, m) == k + "|" + m
  }

  /** The key is derived from the secret by the date, the region, the service and the final marker, in this order. */
  lemma KeyDerivation(c: Crypto, s: Scope)
    requires Recording(c)
    ensures KeyOf(c, s) == "AWS4" + s.secret + "|" + s.date + "|" + s.region + "|" + s.service + "|" + "aws4_request"
  {
  }

  /** The signature is the hexadecimal form of the hash of the text under the key. */
  lemma RecordedSignature(c: Crypto, key: string, text: string)
    requires Recording(c)
    ensures ComputeSignature(c, key, text) == HexEncode(key + "|" + text)
  {
  }
}
