/** Ordered rule sets, resolved by the last rule that matches. */
module IgnoreRules {
  import opened Split
  import opened Ignore
  import opened IgnorePaths
  import opened IgnorePlain

  datatype Rule = NoRule | Rule(text: string)

  predicate Negated(rule: string) { rule != [] && rule[0] == '!' }

  predicate Applies(cls: ClassOf, rule: string, path: string) { Denies(cls, StripLeft(rule, '!'), path) }

  /** Index of the last rule that matches, or -1. */
  ghost function LastMatch(cls: ClassOf, ruleset: seq<string>, path: string): (i: int)
    ensures -1 <= i < |ruleset|
  {
    if ruleset == [] then -1
    else if Applies(cls, ruleset[|ruleset| - 1], path) then |ruleset| - 1
    else LastMatch(cls, ruleset[..|ruleset| - 1], path)
  }

  lemma {:induction false} LastMatchIsLast(cls: ClassOf, ruleset: seq<string>, path: string)
    ensures var i := LastMatch(cls, ruleset, path);
      && (i >= 0 ==> Applies(cls, ruleset[i], path))
      && forall j :: i < j < |ruleset| ==> !Applies(cls, ruleset[j], path)
  {
    hide Applies;
    if ruleset != [] { LastMatchIsLast(cls, ruleset[..|ruleset| - 1], path); }
  }

  /** _effective_rule. */
  method EffectiveRule(cls: ClassOf, ruleset: seq<string>, path: string) returns (last: Rule)
    ensures var i := LastMatch(cls, ruleset, path); last == if i < 0 then NoRule else Rule(ruleset[i])
  {
    hide Applies;
    last := NoRule;
    for k := 0 to |ruleset|
      invariant var i := LastMatch(cls, ruleset[..k], path); last == if i < 0 then NoRule else Rule(ruleset[i])
    {
      assert ruleset[..k + 1][..k] == ruleset[..k];
      if Applies(cls, ruleset[k], path) { last := Rule(ruleset[k]); }
    }
    assert ruleset[..|ruleset|] == ruleset;
  }

  ghost predicate IsDenied(cls: ClassOf, ruleset: seq<string>, path: string) {
    var i := LastMatch(cls, ruleset, path);
    i >= 0 && !Negated(ruleset[i])
  }

  /** A path is denied exactly when some rule that does not begin with `!` matches it and no later rule does. */
  lemma DeniedByLast(cls: ClassOf, ruleset: seq<string>, path: string)
    ensures IsDenied(cls, ruleset, path) <==> exists i :: DecidesAgainst(cls, ruleset, path, i)
  {
    hide Applies;
    LastMatchIsLast(cls, ruleset, path);
    var i := LastMatch(cls, ruleset, path);
    if IsDenied(cls, ruleset, path) { assert DecidesAgainst(cls, ruleset, path, i); }
    if k :| DecidesAgainst(cls, ruleset, path, k) { assert i == k; }
  }

  ghost predicate DecidesAgainst(cls: ClassOf, ruleset: seq<string>, path: string, i: int) {
    && 0 <= i < |ruleset| && Applies(cls, ruleset[i], path) && (ruleset[i] == "" || ruleset[i][0] != '!')
    && forall j :: i < j < |ruleset| ==> !Applies(cls, ruleset[j], path)
  }

  /** The exclamation marks in front of an exception say nothing about which paths it matches. */
  lemma ExceptionApplies(cls: ClassOf, marks: string, rule: string, path: string)
    requires Only(marks, '!') && (rule == "" || rule[0] != '!')
    ensures Applies(cls, marks + rule, path) <==> Denies(cls, rule, path)
  {
    StripsLeft(marks, rule, '!');
  }

  /** Below a denied path only an exception that names the descendant and not the path itself re-includes anything. */
  lemma OnlyNarrowerExceptionReincludes(cls: ClassOf, ruleset: seq<string>, segs: seq<string>, below: seq<string>)
    requires PathSegments(segs) && PathSegments(segs + below)
    requires IsDenied(cls, ruleset, Join(segs, '/')) && !IsDenied(cls, ruleset, Join(segs + below, '/'))
    ensures exists j ::
      (0 <= j < |ruleset| && Negated(ruleset[j]) && Applies(cls, ruleset[j], Join(segs + below, '/'))
      && !Applies(cls, ruleset[j], Join(segs, '/')))
  {
    hide Denies, Join;
    LastMatchIsLast(cls, ruleset, Join(segs, '/'));
    LastMatchIsLast(cls, ruleset, Join(segs + below, '/'));
    var i := LastMatch(cls, ruleset, Join(segs, '/'));
    DenialInherited(cls, StripLeft(ruleset[i], '!'), segs, below);
    var j := LastMatch(cls, ruleset, Join(segs + below, '/'));
    assert j >= i;
  }

  /** A rule written last decides every path it matches and no other. */
  lemma AppendedRuleWins(cls: ClassOf, ruleset: seq<string>, rule: string, path: string)
    ensures IsDenied(cls, ruleset + [rule], path)
      <==> if Applies(cls, rule, path) then !Negated(rule) else IsDenied(cls, ruleset, path)
  {
    assert (ruleset + [rule])[..|ruleset|] == ruleset;
  }
}
