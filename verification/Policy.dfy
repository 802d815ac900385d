// Deny-overrides evaluation of policy documents.
module Policy {
  import opened Glob

  datatype Effect = Allowing | Denying

  datatype Statement = Statement(effect: Effect, actions: seq<string>, resources: seq<string>)

  datatype Document = Document(version: string, statements: seq<Statement>)

  datatype Evaluation = Allow | Deny | NoMatch

  /** Exact text, `*`, or a prefix followed by one trailing `*`. */
  predicate MatchesAction(pattern: string, action: string) {
    if pattern == "*" then true
    else if pattern != [] && pattern[|pattern| - 1] == '*' then pattern[..|pattern| - 1] <= action
    else pattern == action
  }

  predicate MatchesResource(pattern: string, resource: string) {
    pattern == "*" || Eager(pattern, resource)
  }

  predicate Applies(s: Statement, action: string, resource: string) {
    && (exists p :: p in s.actions && MatchesAction(p, action))
    && (exists p :: p in s.resources && MatchesResource(p, resource))
  }

  function EvaluateStatement(s: Statement, action: string, resource: string): Evaluation {
    if !Applies(s, action, resource) then NoMatch
    else match s.effect case Allowing => Allow case Denying => Deny
  }

  /** Some statement of the list evaluates to `e`. */
  ghost predicate Says(ss: seq<Statement>, action: string, resource: string, e: Evaluation) {
    exists s :: s in ss && EvaluateStatement(s, action, resource) == e
  }

  /** Deny overrides Allow, Allow overrides silence. */
  ghost function Verdict(ss: seq<Statement>, action: string, resource: string): Evaluation {
    if Says(ss, action, resource, Deny) then Deny
    else if Says(ss, action, resource, Allow) then Allow
    else NoMatch
  }

  /** All statements of all grants, in order. */
  function Flatten(grants: seq<Document>): seq<Statement> {
    if grants == [] then [] else Flatten(grants[..|grants| - 1]) + grants[|grants| - 1].statements
  }

  method EvaluatePolicy(doc: Document, action: string, resource: string) returns (e: Evaluation)
    ensures e == Verdict(doc.statements, action, resource)
  {
    var foundAllow := false;
    var ss := doc.statements;
    for i := 0 to |ss|
      invariant !Says(ss[..i], action, resource, Deny)
      invariant foundAllow == Says(ss[..i], action, resource, Allow)
    {
      assert ss[..i + 1] == ss[..i] + [ss[i]];
      match EvaluateStatement(ss[i], action, resource)
      case Deny => return Deny;
      case Allow => foundAllow := true;
      case NoMatch =>
    }
    assert ss[..|ss|] == ss;
    e := if foundAllow then Allow else NoMatch;
  }

  lemma VerdictAppend(a: seq<Statement>, b: seq<Statement>, action: string, resource: string, e: Evaluation)
    ensures Says(a + b, action, resource, e) <==> Says(a, action, resource, e) || Says(b, action, resource, e)
  {
    assert forall s :: s in a + b <==> s in a || s in b;
  }

  /** Evaluating grant by grant is evaluating one document of all statements. */
  method EvaluateGrants(grants: seq<Document>, action: string, resource: string) returns (e: Evaluation)
    ensures e == Verdict(Flatten(grants), action, resource)
  {
    var foundAllow := false;
    for i := 0 to |grants|
      invariant !Says(Flatten(grants[..i]), action, resource, Deny)
      invariant foundAllow == Says(Flatten(grants[..i]), action, resource, Allow)
    {
      assert grants[..i + 1][..i] == grants[..i];
      VerdictAppend(Flatten(grants[..i]), grants[i].statements, action, resource, Allow);
      VerdictAppend(Flatten(grants[..i]), grants[i].statements, action, resource, Deny);
      var v := EvaluatePolicy(grants[i], action, resource);
      match v
      case Deny =>
        DenyAnywhere(grants, i, action, resource);
        return Deny;
      case Allow => foundAllow := true;
      case NoMatch =>
    }
    assert grants[..|grants|] == grants;
    e := if foundAllow then Allow else NoMatch;
  }

  /** `s` is a statement of one of the grants. */
  ghost predicate Stated(grants: seq<Document>, s: Statement) {
    exists d :: d in grants && s in d.statements
  }

  lemma {:induction false} InFlatten(grants: seq<Document>, s: Statement)
    ensures s in Flatten(grants) <==> Stated(grants, s)
  {
    if grants != [] {
      var n := |grants| - 1;
      InFlatten(grants[..n], s);
      assert grants == grants[..n] + [grants[n]];
    }
  }

  lemma DenyAnywhere(grants: seq<Document>, i: nat, action: string, resource: string)
    requires i < |grants| && Says(grants[i].statements, action, resource, Deny)
    ensures Says(Flatten(grants), action, resource, Deny)
  {
    var s :| s in grants[i].statements && EvaluateStatement(s, action, resource) == Deny;
    InFlatten(grants, s);
  }

  /**
   * Only which statements are stated matters: reordering or repeating grants,
   * reordering statements, or moving a statement to another grant changes no
   * verdict.
   */
  lemma OrderIrrelevant(g: seq<Document>, h: seq<Document>, action: string, resource: string)
    requires forall s :: Stated(g, s) <==> Stated(h, s)
    ensures Verdict(Flatten(g), action, resource) == Verdict(Flatten(h), action, resource)
  {
    forall s ensures s in Flatten(g) <==> s in Flatten(h) {
      InFlatten(g, s);
      InFlatten(h, s);
    }
  }

  /**
   * Access is granted exactly when some statement of some grant allows it, with
   * one action pattern and one resource pattern that both match, and no denying
   * statement has two such patterns; an explicit deny is reported exactly when
   * one has.
   */
  lemma AllowExactly(g: seq<Document>, action: string, resource: string)
    ensures Verdict(Flatten(g), action, resource) == Allow <==>
      && (exists s, a, p ::
            Stated(g, s) && s.effect == Allowing && a in s.actions && MatchesAction(a, action)
            && p in s.resources && MatchesResource(p, resource))
      && (forall s, a, p ::
            Stated(g, s) && s.effect == Denying && a in s.actions && MatchesAction(a, action) && p in s.resources ==>
            !MatchesResource(p, resource))
    ensures Verdict(Flatten(g), action, resource) == Deny <==>
      exists s, a, p ::
        Stated(g, s) && s.effect == Denying && a in s.actions && MatchesAction(a, action)
        && p in s.resources && MatchesResource(p, resource)
  {
    forall s ensures s in Flatten(g) <==> Stated(g, s) {
      InFlatten(g, s);
    }
    SaysByPatterns(Flatten(g), action, resource, Allowing);
    SaysByPatterns(Flatten(g), action, resource, Denying);
  }

  lemma SaysByPatterns(ss: seq<Statement>, action: string, resource: string, effect: Effect)
    ensures Says(ss, action, resource, if effect.Allowing? then Allow else Deny) <==>
      exists s, a, p ::
        s in ss && s.effect == effect && a in s.actions && MatchesAction(a, action)
        && p in s.resources && MatchesResource(p, resource)
  {
    var e := if effect.Allowing? then Allow else Deny;
    if s :| s in ss && EvaluateStatement(s, action, resource) == e {
      var a :| a in s.actions && MatchesAction(a, action);
      var p :| p in s.resources && MatchesResource(p, resource);
      assert s.effect == effect;
    }
    forall s, a, p |
      s in ss && s.effect == effect && a in s.actions && MatchesAction(a, action) && p in s.resources && MatchesResource(p, resource)
      ensures EvaluateStatement(s, action, resource) == e
    {
    }
  }

  /** A statement with no matching action pattern, or no matching resource pattern, might as well not be there. */
  lemma UnmatchedStatementIrrelevant(g: seq<Document>, h: seq<Document>, s: Statement, action: string, resource: string)
    requires forall t :: Stated(g, t) <==> Stated(h, t) || t == s
    requires
      || (forall a :: a in s.actions ==> !MatchesAction(a, action))
      || (forall p :: p in s.resources ==> !MatchesResource(p, resource))
    ensures Verdict(Flatten(g), action, resource) == Verdict(Flatten(h), action, resource)
  {
    forall t ensures (t in Flatten(g) <==> Stated(g, t)) && (t in Flatten(h) <==> Stated(h, t)) {
      InFlatten(g, t);
      InFlatten(h, t);
    }
    assert EvaluateStatement(s, action, resource) == NoMatch;
  }

  // ----- what the two kinds of pattern mean -----

  predicate Plain(p: string) {
    '*' !in p && '?' !in p
  }

  lemma {:induction false} PlainPrefix(p: string, q: string, t: string)
    requires Plain(p)
    ensures Matches(p + q, t) <==> p <= t && Matches(q, t[|p|..])
  {
    if p == [] {
      assert p + q == q && t[0..] == t;
    } else if t != [] && p[0] == t[0] {
      assert (p + q)[1..] == p[1..] + q;
      PlainPrefix(p[1..], q, t[1..]);
      if p[1..] <= t[1..] {
        assert t[1..][|p| - 1..] == t[|p|..];
      }
      assert p == [p[0]] + p[1..] && t == [t[0]] + t[1..];
    } else {
      assert (p + q)[0] == p[0];
    }
  }

  lemma {:induction false} StarMatchesAll(t: string)
    ensures Matches("*", t)
  {
    if t != [] {
      StarMatchesAll(t[1..]);
    }
  }

  /**
   * An action pattern is the glob of the same text when its only wildcard is a
   * trailing `*`; any other `*` or `?` in it is an ordinary character.
   */
  lemma ActionPatternMeaning(prefix: string, action: string)
    requires Plain(prefix)
    ensures MatchesAction(prefix + "*", action) <==> Matches(prefix + "*", action)
    ensures MatchesAction(prefix, action) <==> Matches(prefix, action)
  {
    PlainPrefix(prefix, "*", action);
    PlainPrefix(prefix, "", action);
    assert prefix + "" == prefix;
    assert (prefix + "*")[..|prefix|] == prefix;
    if prefix <= action {
      StarMatchesAll(action[|prefix|..]);
    }
  }

  /** A resource pattern is its glob on every resource that holds no `*`. */
  lemma ResourcePatternMeaning(pattern: string, resource: string)
    requires '*' !in resource
    ensures MatchesResource(pattern, resource) <==> Matches(pattern, resource)
  {
    GlobExact(resource);
    StarMatchesAll(resource);
  }

  /** An action pattern matches its own text, or what its text before a trailing `*` begins. */
  lemma ActionMatchesExactly(pattern: string, action: string)
    ensures MatchesAction(pattern, action) <==>
      pattern == action || exists prefix :: pattern == prefix + "*" && prefix <= action
  {
    if pattern != [] && pattern[|pattern| - 1] == '*' {
      var prefix := pattern[..|pattern| - 1];
      assert pattern == prefix + "*";
      if pattern == "*" {
        assert prefix == [] <= action;
      }
      forall q | pattern == q + "*" ensures q == prefix {
        assert (q + "*")[..|q|] == q;
      }
      if pattern == action {
        assert prefix <= action;
      }
    }
  }

  /** On resources without `*`, access is decided by the declarative relation of the resource patterns. */
  lemma AllowByGlob(g: seq<Document>, action: string, resource: string)
    requires '*' !in resource
    ensures Verdict(Flatten(g), action, resource) == Allow <==>
      && (exists s, a, p ::
            Stated(g, s) && s.effect == Allowing && a in s.actions && MatchesAction(a, action)
            && p in s.resources && Matches(p, resource))
      && (forall s, a, p ::
            Stated(g, s) && s.effect == Denying && a in s.actions && MatchesAction(a, action) && p in s.resources ==>
            !Matches(p, resource))
  {
    AllowExactly(g, action, resource);
    StatedByGlob(g, action, resource, Allowing);
    StatedByGlob(g, action, resource, Denying);
  }

  lemma StatedByGlob(g: seq<Document>, action: string, resource: string, effect: Effect)
    requires '*' !in resource
    ensures
      (exists s, a, p ::
         Stated(g, s) && s.effect == effect && a in s.actions && MatchesAction(a, action)
         && p in s.resources && MatchesResource(p, resource)) <==>
      (exists s, a, p ::
         Stated(g, s) && s.effect == effect && a in s.actions && MatchesAction(a, action)
         && p in s.resources && Matches(p, resource))
  {
    forall p ensures MatchesResource(p, resource) <==> Matches(p, resource) {
      ResourcePatternMeaning(p, resource);
    }
  }
}
