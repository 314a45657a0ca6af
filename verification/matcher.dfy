/** The allow-list matcher of matcher.go. */
module Matcher {
  import opened Wrappers
  import opened Regex
  import opened Patterns

  /** Allow-list semantics: the empty list admits everything (fail-open); otherwise
      some expression of the list must match the input. */
  predicate Allowed(engine: Engine, patterns: seq<Regexp>, input: string)
    requires AllCompiled(patterns)
  {
    |patterns| == 0 || exists i :: 0 <= i < |patterns| && engine.matches(patterns[i].expr, input)
  }

  /** Go's `MatchAnyPattern(input, patterns)`: a scan that stops at the first match. */
  method MatchAnyPattern(engine: Engine, input: string, patterns: seq<Regexp>) returns (ok: bool)
    requires AllCompiled(patterns)
    ensures |patterns| == 0 ==> ok
    ensures |patterns| > 0 ==>
              (ok <==> exists i :: 0 <= i < |patterns| && engine.matches(patterns[i].expr, input))
    ensures ok == Allowed(engine, patterns, input)
  {
    if |patterns| == 0 {
      return true;
    }
    for i := 0 to |patterns|
      invariant forall j :: 0 <= j < i ==> !engine.matches(patterns[j].expr, input)
    {
      if engine.matches(patterns[i].expr, input) {
        return true;
      }
    }
    return false;
  }

  /** The verdict depends only on which expressions the list holds, not on their
      order or repetition. */
  lemma {:induction false} AllowedIgnoresOrder(engine: Engine, ps: seq<Regexp>, qs: seq<Regexp>, input: string)
    requires AllCompiled(ps) && AllCompiled(qs)
    requires forall r :: r in ps <==> r in qs
    ensures Allowed(engine, ps, input) == Allowed(engine, qs, input)
  {
    assert |ps| == 0 <==> |qs| == 0 by {
      if |ps| > 0 { assert ps[0] in ps; }
      if |qs| > 0 { assert qs[0] in qs; }
    }
    if |ps| > 0 && |qs| > 0 {
      if Allowed(engine, ps, input) { AllowedSubsumed(engine, ps, qs, input); }
      if Allowed(engine, qs, input) { AllowedSubsumed(engine, qs, ps, input); }
    }
  }

  lemma AllowedSubsumed(engine: Engine, ps: seq<Regexp>, qs: seq<Regexp>, input: string)
    requires AllCompiled(ps) && AllCompiled(qs) && |ps| > 0 && |qs| > 0
    requires forall r :: r in ps ==> r in qs
    requires Allowed(engine, ps, input)
    ensures Allowed(engine, qs, input)
  {
    var i :| 0 <= i < |ps| && engine.matches(ps[i].expr, input);
    assert ps[i] in qs;
  }

  /** Appending an expression: the new list admits what a non-empty old list
      admitted and what the new expression matches. Only the empty list, which
      admits everything, can be narrowed by an append. */
  lemma AllowedAppend(engine: Engine, ps: seq<Regexp>, r: Regexp, input: string)
    requires AllCompiled(ps) && r.Compiled?
    ensures AllCompiled(ps + [r])
    ensures Allowed(engine, ps + [r], input) <==>
              (|ps| > 0 && Allowed(engine, ps, input)) || engine.matches(r.expr, input)
  {
    var qs := ps + [r];
    if engine.matches(r.expr, input) {
      assert qs[|ps|] == r;
    }
    if |ps| > 0 && Allowed(engine, ps, input) {
      var i :| 0 <= i < |ps| && engine.matches(ps[i].expr, input);
      assert qs[i] == ps[i];
    }
    if Allowed(engine, qs, input) {
      var i :| 0 <= i < |qs| && engine.matches(qs[i].expr, input);
      if i < |ps| { assert ps[i] == qs[i]; }
    }
  }

  /** A list built from a configuration string admits an input exactly when the
      configuration has no non-blank segment or one of its trimmed segments matches. */
  lemma ConfiguredAllowList(engine: Engine, config: string, ps: seq<Regexp>, input: string)
    requires ConvertToRegexPatterns(engine, config) == Success(ps)
    ensures AllCompiled(ps)
    ensures var fs := ConfigFields(config);
            Allowed(engine, ps, input) <==>
              |fs| == 0 || exists k :: 0 <= k < |fs| && engine.matches(fs[k], input)
  {
    var fs := ConfigFields(config);
    if k :| 0 <= k < |fs| && engine.matches(fs[k], input) {
      assert ps[k].expr == fs[k];
    }
    if i :| 0 <= i < |ps| && engine.matches(ps[i].expr, input) {
      assert ps[i].expr == fs[i];
    }
  }
}
