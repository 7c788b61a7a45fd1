/** Interpolation of `${VAR}` and `${VAR:-default}` in configuration strings: leftmost rewriting
    until no complete expression is left. */
module ConfigInterpolate {
  import opened Prelude
  import opened Strings

  /** os.Getenv: the empty string for an unset variable. */
  type Env = string -> string

  /** Occurrences of c. */
  function Count(s: string, c: char): nat {
    if s == "" then 0 else Count(s[..|s| - 1], c) + if s[|s| - 1] == c then 1 else 0
  }

  lemma {:induction false} CountConcat(s: string, t: string, c: char)
    ensures Count(s + t, c) == Count(s, c) + Count(t, c)
  {
    if t == "" {
      assert s + t == s;
    } else {
      CountConcat(s, t[..|t| - 1], c);
      assert (s + t)[..|s + t| - 1] == s + t[..|t| - 1];
    }
  }

  lemma {:induction false} CountAbsent(s: string, c: char)
    requires c !in s
    ensures Count(s, c) == 0
  {
    if s != "" {
      assert s[|s| - 1] in s;
      CountAbsent(s[..|s| - 1], c);
    }
  }

  // ---- one rewriting step ----

  /** The leftmost "${" and the first '}' after it; None when either is missing. */
  function Redex(s: string): (r: Option<(nat, nat)>)
    ensures r.Some? ==>
      var (start, end) := r.value;
      start + 2 <= end < |s| && OccursAt(s, "${", start) && s[end] == '}'
  {
    var start := Index(s, "${");
    if start < 0 then None
    else
      var offset := IndexChar(s[start..], '}');
      if offset < 0 then None
      else
        assert s[start..start + 2][0] == '$' && s[start..start + 2][1] == '{';
        assert s[start] == s[start..start + 2][0] && s[start + 1] == s[start..start + 2][1];
        assert s[start..][offset] == '}' && s[start..][0] == '$' && s[start..][1] == '{';
        Some((start, start + offset))
  }

  /** What an expression between the braces stands for. */
  function Value(env: Env, expr: string): string {
    var i := Index(expr, ":-");
    if i >= 0 then
      var value := env(expr[..i]);
      if value == "" then expr[i + 2..] else value
    else env(expr)
  }

  function Rewrite(env: Env, s: string): string
    requires Redex(s).Some?
  {
    var (start, end) := Redex(s).value;
    s[..start] + Value(env, s[start + 2..end]) + s[end + 1..]
  }

  /** No value holds c. */
  ghost predicate Lacks(env: Env, c: char) {
    forall name :: c !in env(name)
  }

  /** The three characters that make up an expression's brackets. */
  predicate IsMark(c: char) {
    c == '$' || c == '{' || c == '}'
  }

  /** Each step loses one of every mark that no value holds, also when the value is a default that
      holds some: the default was inside the expression. */
  lemma RewriteLosesAMark(env: Env, s: string, c: char)
    requires IsMark(c) && Lacks(env, c) && Redex(s).Some?
    ensures Count(Rewrite(env, s), c) < Count(s, c)
  {
    hide Redex, Value, Count, Lacks;
    var (start, end) := Redex(s).value;
    var head, expr, tail := s[..start], s[start + 2..end], s[end + 1..];
    var value := Value(env, expr);
    assert s == head + "${" + expr + "}" + tail by {
      assert s[start..start + 2] == "${";
    }
    CountConcat(head + "${" + expr + "}", tail, c);
    CountConcat(head + "${" + expr, "}", c);
    CountConcat(head + "${", expr, c);
    CountConcat(head, "${", c);
    CountOfBrackets(c);
    CountConcat(head + value, tail, c);
    CountConcat(head, value, c);
    ValueHasNoMoreMarks(env, expr, c);
  }

  lemma CountOfBrackets(c: char)
    requires IsMark(c)
    ensures Count("${", c) + Count("}", c) == 1
  {
    assert "${"[..1] == "$" && "$"[..0] == "" && "}"[..0] == "";
  }

  lemma ValueHasNoMoreMarks(env: Env, expr: string, c: char)
    requires Lacks(env, c)
    ensures Count(Value(env, expr), c) <= Count(expr, c)
  {
    hide Count;
    var i := Index(expr, ":-");
    if i >= 0 {
      assert expr == expr[..i + 2] + expr[i + 2..];
      CountConcat(expr[..i + 2], expr[i + 2..], c);
      CountAbsent(env(expr[..i]), c);
    } else {
      CountAbsent(env(expr), c);
    }
  }

  // ---- to the end ----

  /** The string after at most n rewritings. */
  function After(env: Env, s: string, n: nat): string
    decreases n
  {
    if n == 0 || Redex(s) == None then s else After(env, Rewrite(env, s), n - 1)
  }

  /** Rewriting s comes to an end. */
  ghost predicate Ends(env: Env, s: string) {
    exists n: nat :: Redex(After(env, s, n)) == None
  }

  /** Rewriting ends on every string when one of the three marks is in no value. */
  lemma {:induction false} EndsWithoutAMark(env: Env, s: string, c: char)
    requires IsMark(c) && Lacks(env, c)
    ensures Ends(env, s)
    decreases Count(s, c)
  {
    hide Redex, Rewrite, Lacks;
    if Redex(s) == None {
      assert Redex(After(env, s, 0)) == None;
    } else {
      RewriteLosesAMark(env, s, c);
      EndsWithoutAMark(env, Rewrite(env, s), c);
      var n: nat :| Redex(After(env, Rewrite(env, s), n)) == None;
      assert After(env, s, n + 1) == After(env, Rewrite(env, s), n);
    }
  }

  /** A variable whose value is its own expression is rewritten to itself for ever. */
  lemma SelfReferenceNeverEnds(env: Env)
    requires env("$") == "${$}"
    ensures !Ends(env, "${$}")
  {
    SelfReferenceStays(env);
    hide Redex, Rewrite;
    forall n: nat ensures Redex(After(env, "${$}", n)).Some? {
      StaysFor(env, n);
    }
  }

  lemma SelfReferenceStays(env: Env)
    requires env("$") == "${$}"
    ensures Redex("${$}").Some? && Rewrite(env, "${$}") == "${$}"
  {
    var s := "${$}";
    assert OccursAt(s, "${", 0);
    assert Index(s, "${") == 0;
    assert s[0..] == s;
    assert IndexChar(s, '}') == 3 by { assert s[3] == '}' && s[0] != '}' && s[1] != '}' && s[2] != '}'; }
    assert s[2..3] == "$";
    assert Index("$", ":-") < 0;
    assert s[..0] == "" && s[4..] == "";
  }

  lemma {:induction false} StaysFor(env: Env, n: nat)
    requires Redex("${$}").Some? && Rewrite(env, "${$}") == "${$}"
    ensures After(env, "${$}", n) == "${$}"
  {
    hide Redex, Rewrite;
    if n > 0 {
      StaysFor(env, n - 1);
    }
  }

  /** Every value is made of characters of cs. */
  ghost predicate DrawsOn(env: Env, cs: set<char>) {
    forall name, c :: c in env(name) ==> c in cs
  }

  /** Which characters in the environment are safe: the loop ends on every string, under every
      environment whose values draw on cs, if and only if cs lacks one of '$', '{' and '}'. */
  lemma EndsExactlyWithoutAMark(cs: set<char>)
    ensures (forall env: Env, s: string | DrawsOn(env, cs) :: Ends(env, s))
       <==> '$' !in cs || '{' !in cs || '}' !in cs
  {
    hide Ends;
    if '$' in cs && '{' in cs && '}' in cs {
      var env: Env := name => if name == "$" then "${$}" else "";
      assert DrawsOn(env, cs);
      SelfReferenceNeverEnds(env);
    } else {
      var c := if '$' !in cs then '$' else if '{' !in cs then '{' else '}';
      forall env: Env, s: string | DrawsOn(env, cs) ensures Ends(env, s) {
        EndsWithoutAMark(env, s, c);
      }
    }
  }

  /** Once there is nothing to rewrite, more steps change nothing. */
  lemma {:induction false} AfterTheEnd(env: Env, s: string, m: nat, n: nat)
    requires Redex(After(env, s, m)) == None && m <= n
    ensures After(env, s, n) == After(env, s, m)
    decreases n
  {
    hide Redex, Rewrite;
    if Redex(s).Some? && m > 0 {
      AfterTheEnd(env, Rewrite(env, s), m - 1, n - 1);
    }
  }

  /** The string rewriting ends in. */
  ghost function Normalize(env: Env, s: string): (t: string)
    requires Ends(env, s)
    ensures Redex(t) == None
  {
    var n: nat :| Redex(After(env, s, n)) == None;
    After(env, s, n)
  }

  lemma NormalizeIs(env: Env, s: string, n: nat)
    requires Redex(After(env, s, n)) == None
    ensures Ends(env, s) && Normalize(env, s) == After(env, s, n)
  {
    hide Redex, After;
    var m: nat :| Redex(After(env, s, m)) == None && Normalize(env, s) == After(env, s, m);
    AfterTheEnd(env, s, Min(m, n), Max(m, n));
  }

  lemma NormalizeStep(env: Env, s: string)
    requires Redex(s).Some? ==> Ends(env, Rewrite(env, s))
    ensures Ends(env, s)
    ensures Normalize(env, s) == if Redex(s) == None then s else Normalize(env, Rewrite(env, s))
  {
    hide Redex, Rewrite, Normalize;
    if Redex(s) == None {
      NormalizeIs(env, s, 0);
    } else {
      var n: nat :| Redex(After(env, Rewrite(env, s), n)) == None;
      NormalizeIs(env, Rewrite(env, s), n);
      assert After(env, s, n + 1) == After(env, Rewrite(env, s), n);
      NormalizeIs(env, s, n + 1);
    }
  }

  /** Interpolating a second time changes nothing. */
  lemma InterpolationIsIdempotent(env: Env, s: string)
    requires Ends(env, s)
    ensures Ends(env, Normalize(env, s)) && Normalize(env, Normalize(env, s)) == Normalize(env, s)
  {
    hide Normalize, Redex, Rewrite;
    NormalizeStep(env, Normalize(env, s));
  }

  /** interpolateString, wherever its loop ends. */
  method InterpolateString(env: Env, str: string) returns (result: string)
    requires Ends(env, str)
    ensures result == Normalize(env, str)
    ensures Redex(result) == None
  {
    hide Redex, Value, Normalize, After;
    ghost var steps: nat :| Redex(After(env, str, steps)) == None;
    ghost var left := steps;
    NormalizeIs(env, str, steps);
    result := str;
    while true
      invariant Redex(After(env, result, left)) == None
      invariant After(env, result, left) == Normalize(env, str)
      decreases left
    {
      AfterStep(env, result, left);
      var start := Index(result, "${");
      if start == -1 {
        NoRedexWithout(result);
        break;
      }
      var end := IndexChar(result[start..], '}');
      if end == -1 {
        NoRedexWithout(result);
        break;
      }
      RedexIs(result, start, end);
      end := end + start;
      var value := Lookup(env, result[start + 2..end]);
      result := result[..start] + value + result[end + 1..];
      left := left - 1;
    }
  }

  lemma AfterStep(env: Env, s: string, n: nat)
    ensures Redex(s) == None ==> After(env, s, n) == s
    ensures Redex(s).Some? && Redex(After(env, s, n)) == None ==>
              n > 0 && After(env, s, n) == After(env, Rewrite(env, s), n - 1)
  {
  }

  lemma NoRedexWithout(s: string)
    requires Index(s, "${") == -1 || IndexChar(s[Index(s, "${")..], '}') == -1
    ensures Redex(s) == None
  {
  }

  lemma RedexIs(s: string, start: nat, offset: nat)
    requires Index(s, "${") == start && IndexChar(s[start..], '}') == offset
    ensures Redex(s) == Some((start, start + offset))
  {
  }

  /** The value of one expression. */
  method Lookup(env: Env, varExpr: string) returns (value: string)
    ensures value == Value(env, varExpr)
  {
    if Contains(varExpr, ":-") {
      var i := Index(varExpr, ":-");
      var envVar, defaultValue := varExpr[..i], varExpr[i + 2..];
      value := env(envVar);
      if value == "" {
        value := defaultValue;
      }
    } else {
      value := env(varExpr);
    }
  }

  /** An expression names a variable up to its first ":-", or as a whole when there is none; what follows
      stands in for a variable that is unset or empty, and may hold further ":-". */
  lemma ReferenceMeaning(env: Env, name: string, default: string)
    requires forall i :: !OccursAt(name, ":-", i)
    ensures Value(env, name) == env(name)
    ensures Value(env, name + ":-" + default) == if env(name) != "" then env(name) else default
  {
    FirstColonDash(name, default);
    var expr := name + ":-" + default;
    assert expr[..|name|] == name && expr[|name| + 2..] == default;
  }

  lemma FirstColonDash(name: string, default: string)
    requires forall i :: !OccursAt(name, ":-", i)
    ensures Index(name + ":-" + default, ":-") == |name|
  {
    var expr := name + ":-" + default;
    assert OccursAt(expr, ":-", |name|);
    forall k | 0 <= k < |name| ensures !OccursAt(expr, ":-", k) {
      if OccursAt(expr, ":-", k) {
        OccursInName(name, default, k);
      }
    }
  }

  lemma OccursInName(name: string, default: string, k: nat)
    requires k < |name| && OccursAt(name + ":-" + default, ":-", k)
    ensures OccursAt(name, ":-", k)
  {
    var expr := name + ":-" + default;
    assert expr[k..k + 2][1] == '-' && expr[|name|] == ':';
    assert k + 2 <= |name|;
    assert name[k..k + 2] == expr[k..k + 2];
  }

  // ---- templates ----

  /** A piece of a template: plain text, ${name}, or ${name:-default}. */
  datatype Part = Literal(text: string) | Variable(name: string) | WithDefault(name: string, default: string)

  predicate Plain(s: string) {
    '$' !in s && '{' !in s && '}' !in s
  }

  predicate PlainPart(p: Part) {
    match p
    case Literal(text) => Plain(text)
    case Variable(name) => Plain(name) && !Contains(name, ":-")
    case WithDefault(name, default) => Plain(name) && Plain(default) && !Contains(name, ":-")
  }

  function Expression(p: Part): string
    requires !p.Literal?
  {
    match p
    case Variable(name) => name
    case WithDefault(name, default) => name + ":-" + default
  }

  function Render(p: Part): string {
    if p.Literal? then p.text else "${" + Expression(p) + "}"
  }

  function Meaning(env: Env, p: Part): string {
    match p
    case Literal(text) => text
    case Variable(name) => env(name)
    case WithDefault(name, default) => if env(name) == "" then default else env(name)
  }

  function RenderAll(ps: seq<Part>): string {
    if ps == [] then "" else Render(ps[0]) + RenderAll(ps[1..])
  }

  /** Every reference replaced at once. */
  function Substitute(env: Env, ps: seq<Part>): string {
    if ps == [] then "" else Meaning(env, ps[0]) + Substitute(env, ps[1..])
  }

  ghost predicate PlainEnv(env: Env) {
    forall name :: Plain(env(name))
  }

  /** On a plain template, with plain values, leftmost rewriting equals simultaneous substitution,
      empty values replaced by the defaults. */
  lemma RewritingIsSubstitution(env: Env, ps: seq<Part>)
    requires PlainEnv(env) && forall p :: p in ps ==> PlainPart(p)
    ensures Ends(env, RenderAll(ps)) && Normalize(env, RenderAll(ps)) == Substitute(env, ps)
  {
    hide Ends, Normalize, RenderAll, Substitute, PlainPart, PlainEnv;
    RewritingAfterPrefix(env, "", ps);
    assert "" + RenderAll(ps) == RenderAll(ps);
    assert "" + Substitute(env, ps) == Substitute(env, ps);
  }

  lemma {:induction false} RewritingAfterPrefix(env: Env, done: string, ps: seq<Part>)
    requires PlainEnv(env) && Plain(done) && forall p :: p in ps ==> PlainPart(p)
    ensures Ends(env, done + RenderAll(ps)) && Normalize(env, done + RenderAll(ps)) == done + Substitute(env, ps)
    decreases |ps|
  {
    hide Redex, Rewrite, Plain, PlainPart, Meaning, Render, Normalize, Ends;
    if ps == [] {
      assert done + RenderAll(ps) == done && done + Substitute(env, ps) == done;
      PlainHasNoRedex(done);
      NormalizeStep(env, done);
    } else {
      var p, rest, value := ps[0], RenderAll(ps[1..]), Meaning(env, ps[0]);
      assert p in ps && PlainPart(p);
      MeaningIsPlain(env, done, p);
      RewritingAfterPrefix(env, done + value, ps[1..]);
      OnePart(env, done, p, rest);
      assert done + Substitute(env, ps) == done + value + Substitute(env, ps[1..]);
    }
  }

  /** Rewriting may start by giving the first part after a plain prefix its meaning. */
  lemma OnePart(env: Env, done: string, p: Part, rest: string)
    requires Plain(done) && PlainPart(p) && Ends(env, done + Meaning(env, p) + rest)
    ensures Ends(env, done + (Render(p) + rest))
    ensures Normalize(env, done + (Render(p) + rest)) == Normalize(env, done + Meaning(env, p) + rest)
  {
    hide Redex, Rewrite, Plain, PlainPart, Meaning, Render, Normalize, Ends;
    assert done + (Render(p) + rest) == done + Render(p) + rest;
    if p.Literal? {
      LiteralMeansItself(env, p);
    } else {
      FirstReference(env, done, p, rest);
      NormalizeStep(env, done + Render(p) + rest);
    }
  }

  lemma LiteralMeansItself(env: Env, p: Part)
    requires p.Literal?
    ensures Meaning(env, p) == Render(p)
  {
  }

  lemma MeaningIsPlain(env: Env, done: string, p: Part)
    requires PlainEnv(env) && Plain(done) && PlainPart(p)
    ensures Plain(done + Meaning(env, p))
  {
    if !p.Literal? {
      assert Plain(env(p.name));
    }
  }

  lemma PlainHasNoRedex(s: string)
    requires Plain(s)
    ensures Redex(s) == None
  {
    forall k | 0 <= k <= |s| ensures !OccursAt(s, "${", k) {
      assert k < |s| ==> s[k] in s;
    }
  }

  /** The leftmost redex of a plain prefix followed by a reference is that reference. */
  lemma FirstReference(env: Env, done: string, p: Part, rest: string)
    requires Plain(done) && PlainPart(p) && !p.Literal?
    ensures var s := done + Render(p) + rest;
      Redex(s).Some? && Rewrite(env, s) == done + Meaning(env, p) + rest
  {
    hide Redex, Value, Plain, PlainPart, Meaning, Expression;
    var expr := Expression(p);
    ExpressionIsPlain(p);
    ReferenceSpan(done, expr, rest);
    Pieces(done, expr, rest);
    ExpressionValue(env, p);
  }

  lemma Pieces(done: string, expr: string, rest: string)
    ensures var s, start, end := done + ("${" + expr + "}") + rest, |done|, |done| + 2 + |expr|;
      end < |s| && s[..start] == done && s[start + 2..end] == expr && s[end + 1..] == rest
  {
  }

  lemma ExpressionIsPlain(p: Part)
    requires PlainPart(p) && !p.Literal?
    ensures Plain(Expression(p))
  {
  }

  lemma ReferenceSpan(done: string, expr: string, rest: string)
    requires Plain(done) && Plain(expr)
    ensures Redex(done + ("${" + expr + "}") + rest) == Some((|done|, |done| + 2 + |expr|))
  {
    var s := done + ("${" + expr + "}") + rest;
    var start, end := |done|, |done| + 2 + |expr|;
    assert s[start..start + 2] == "${";
    assert OccursAt(s, "${", start);
    forall k | 0 <= k < start ensures !OccursAt(s, "${", k) {
      assert s[k] == done[k] && done[k] in done;
    }
    assert Index(s, "${") == start;
    var t := s[start..];
    assert t[2 + |expr|] == '}';
    forall k | 0 <= k < 2 + |expr| ensures t[k] != '}' {
      if k >= 2 {
        assert t[k] == expr[k - 2] && expr[k - 2] in expr;
      }
    }
    assert IndexChar(t, '}') == 2 + |expr|;
  }

  /** Splitting at the first ":-" finds the name and the default. */
  lemma ExpressionValue(env: Env, p: Part)
    requires PlainPart(p) && !p.Literal?
    ensures Value(env, Expression(p)) == Meaning(env, p)
  {
    ReferenceMeaning(env, p.name, if p.WithDefault? then p.default else "");
  }
}
