/** Where reading a rule one path segment at a time is right, and a rule it is wrong for. */
module IgnoreReadings {
  import opened Split
  import opened Ignore
  import opened IgnoreSegments
  import opened IgnorePaths

  /** A match in which some pattern segment takes two path segments or more. */
  ghost predicate Spans(cls: ClassOf, pattern: seq<string>, segs: seq<string>)
    decreases |pattern| + |segs|
  {
    if pattern == [] then false
    else if pattern[0] == "**" then
      |pattern| > 1 && (Spans(cls, pattern[1..], segs) || (segs != [] && Spans(cls, pattern, segs[1..])))
    else
      || (segs != [] && Reads(cls, pattern[0], segs[0]) && Spans(cls, pattern[1..], segs[1..]))
      || exists j :: 2 <= j <= |segs| && TakesFirst(cls, pattern[0], segs, j) && MatchWide(cls, pattern[1..], segs[j..])
  }

  ghost predicate SpansAncestor(cls: ClassOf, pattern: seq<string>, segs: seq<string>) {
    exists k :: 1 <= k <= |segs| && Spans(cls, pattern, segs[..k])
  }

  lemma {:induction false} WideSplits(cls: ClassOf, pattern: seq<string>, segs: seq<string>)
    ensures MatchWide(cls, pattern, segs) <==> MatchSegments(cls, pattern, segs) || Spans(cls, pattern, segs)
    decreases |pattern| + |segs|
  {
    hide Reads;
    if pattern != [] {
      if pattern[0] == "**" {
        if |pattern| > 1 {
          WideSplits(cls, pattern[1..], segs);
          if segs != [] { WideSplits(cls, pattern, segs[1..]); }
        }
      } else if segs != [] {
        WideSplits(cls, pattern[1..], segs[1..]);
        assert Join(segs[..1], '/') == segs[0];
        assert TakesFirst(cls, pattern[0], segs, 1) <==> Reads(cls, pattern[0], segs[0]);
      }
    }
  }

  /** The segment-by-segment reading of a rule is right on a path exactly unless some pattern segment spans several
      segments of the path, or of an ancestor, where no reading that keeps to single segments matches. */
  lemma SegmentReadingExactly(cls: ClassOf, rule: string, segs: seq<string>)
    requires PathSegments(segs)
    ensures var pattern := SplitOn(PatternOf(rule), '/');
      Denies(cls, rule, Join(segs, '/')) <==> MatchesAncestor(cls, pattern, segs) || SpansAncestor(cls, pattern, segs)
    ensures var pattern := SplitOn(PatternOf(rule), '/');
      (Denies(cls, rule, Join(segs, '/')) <==> MatchesAncestor(cls, pattern, segs))
      <==> !(SpansAncestor(cls, pattern, segs) && !MatchesAncestor(cls, pattern, segs))
  {
    hide Denies, MatchWide, MatchSegments, Spans;
    var pattern := SplitOn(PatternOf(rule), '/');
    DeniesExactly(cls, rule, segs);
    forall k | 1 <= k <= |segs|
      ensures MatchWide(cls, pattern, segs[..k])
        <==> MatchSegments(cls, pattern, segs[..k]) || Spans(cls, pattern, segs[..k])
    {
      WideSplits(cls, pattern, segs[..k]);
    }
  }

  /** Only a bracket class that admits the separator can span. */
  lemma ConfinedNeverSpans(cls: ClassOf, pattern: seq<string>, segs: seq<string>)
    requires AllFree(pattern, '/') && ClassesConfined(cls, pattern)
    ensures !Spans(cls, pattern, segs)
    decreases |pattern| + |segs|
  {
    hide Reads, Glob, Tokens, MatchWide;
    if pattern != [] {
      TailConfined(cls, pattern);
      if pattern[0] == "**" {
        if |pattern| > 1 { ConfinedNeverSpans(cls, pattern[1..], segs); }
        if segs != [] { ConfinedNeverSpans(cls, pattern, segs[1..]); }
      } else {
        if segs != [] { ConfinedNeverSpans(cls, pattern[1..], segs[1..]); }
        ConfinedSegment(cls, pattern, 0);
        forall j: nat | 2 <= j <= |segs| ensures !TakesFirst(cls, pattern[0], segs, j) {
          JoinHasSeparator(segs[..j]);
          TokensRead(cls, pattern[0], Join(segs[..j], '/'));
          ConfinedTakesNone(cls, Tokens(pattern[0]), Join(segs[..j], '/'));
        }
      }
    }
  }

  lemma JoinHasSeparator(segs: seq<string>)
    requires |segs| >= 2
    ensures '/' in Join(segs, '/')
  {
    assert Join(segs, '/')[|segs[0]|] == '/';
  }

  lemma {:induction false} ConfinedTakesNone(cls: ClassOf, ts: seq<Token>, s: string)
    requires Confined(cls, ts) && '/' in s
    ensures !Glob(cls, ts, s)
    decreases |ts| + |s|
  {
    if ts != [] {
      assert !Admits(cls, ts[0], '/');
      assert Confined(cls, ts[1..]);
      if ts[0].Any? { ConfinedTakesNone(cls, ts[1..], s); }
      if s[0] != '/' {
        assert '/' in s[1..];
        ConfinedTakesNone(cls, if ts[0].Any? then ts else ts[1..], s[1..]);
      }
    }
  }

  lemma TailConfined(cls: ClassOf, pattern: seq<string>)
    requires pattern != [] && AllFree(pattern, '/') && ClassesConfined(cls, pattern)
    ensures AllFree(pattern[1..], '/') && ClassesConfined(cls, pattern[1..])
  {
    forall i | 0 <= i < |pattern[1..]| ensures Free(pattern[1..][i], '/') { assert Free(pattern[i + 1], '/'); }
  }

  ghost predicate RuleConfined(cls: ClassOf, rule: string) {
    ClassesConfined(cls, SplitOn(PatternOf(rule), '/'))
  }

  /** A rule whose classes do not admit the separator is read segment by segment, on every path. */
  lemma ConfinedRuleExactly(cls: ClassOf, rule: string, segs: seq<string>)
    requires PathSegments(segs) && RuleConfined(cls, rule)
    ensures Denies(cls, rule, Join(segs, '/')) <==> MatchesAncestor(cls, SplitOn(PatternOf(rule), '/'), segs)
  {
    hide Denies, Spans, MatchesAncestor, ClassesConfined;
    var pattern := SplitOn(PatternOf(rule), '/');
    SplitJoins(PatternOf(rule), '/');
    SegmentReadingExactly(cls, rule, segs);
    forall k | 1 <= k <= |segs| ensures !Spans(cls, pattern, segs[..k]) { ConfinedNeverSpans(cls, pattern, segs[..k]); }
  }

  /** It can: a negated class that admits the separator lets one pattern segment deny a path of two. */
  lemma BracketCrosses(cls: ClassOf)
    requires cls("[^b]", '/')
    ensures Denies(cls, "a[^b]c", Join(["a", "c"], '/'))
      && !MatchesAncestor(cls, SplitOn(PatternOf("a[^b]c"), '/'), ["a", "c"])
  {
    hide Accepts, Glob, Reads, Tokens, Parts, MatchesAncestor, SplitOn;
    var rule, ts, path := "a[^b]c", [Char('a'), Bracket("[^b]"), Char('c')], "a/c";
    BracketTokens();
    BracketAccepts(cls, ts, path);
    assert Join(["a", "c"], '/') == path;
    assert SplitOn(rule, '/') == [rule] by { SplitFree(rule, '/'); }
    assert PatternParts([rule]) == Parts(ts) by { OneSegmentPattern([rule]); }
    ThreeTokensNeedThree(cls, ts);
    TokensRead(cls, rule, "a");
    NoAncestor(cls, rule);
  }

  lemma NoAncestor(cls: ClassOf, rule: string)
    requires rule != "**" && !Reads(cls, rule, "a")
    ensures !MatchesAncestor(cls, [rule], ["a", "c"])
  {
    hide Reads;
    forall k | 1 <= k <= 2 ensures !MatchSegments(cls, [rule], ["a", "c"][..k]) { assert ["a", "c"][..k][0] == "a"; }
  }

  lemma ThreeTokensNeedThree(cls: ClassOf, ts: seq<Token>)
    requires ts == [Char('a'), Bracket("[^b]"), Char('c')]
    ensures !Glob(cls, ts, "a")
  {
    assert "a"[1..] == "" && !Glob(cls, ts[1..], "");
  }

  lemma BracketTokens()
    ensures Tokens("a[^b]c") == [Char('a'), Bracket("[^b]"), Char('c')]
  {
    var s := "[^b]c";
    hide Tokens, HeadToken;
    BracketHead();
    TokensStep("a[^b]c", Char('a'), 1, s);
    TokensStep(s, Bracket("[^b]"), 4, "c");
    TokensStep("c", Char('c'), 1, "");
    NoTokens();
  }

  lemma TokensStep(s: string, t: Token, width: nat, rest: string)
    requires s != [] && HeadToken(s) == (t, width) && rest == s[width..]
    ensures Tokens(s) == [t] + Tokens(rest)
  {
  }

  lemma BracketHead()
    ensures HeadToken("a[^b]c") == (Char('a'), 1) && HeadToken("c") == (Char('c'), 1)
    ensures HeadToken("[^b]c") == (Bracket("[^b]"), 4)
  {
    var s := "[^b]c";
    assert s[1..] == "^b]c" && "^b]c"[1..] == "b]c" && "b]c"[1..] == "]c";
    assert FindClose("b]c") == 1 && FindClose("^b]c") == 2;
    assert s[..4] == "[^b]";
  }

  lemma BracketAccepts(cls: ClassOf, ts: seq<Token>, path: string)
    requires ts == [Char('a'), Bracket("[^b]"), Char('c')] && path == "a/c" && cls("[^b]", '/')
    ensures Accepts(cls, Parts(ts) + TAIL, path)
  {
    hide Accepts;
    assert Parts(ts) + TAIL == [PartOf(ts[0])] + ([PartOf(ts[1])] + ([PartOf(ts[2])] + TAIL));
    OneStep(cls, ts[0], [PartOf(ts[1])] + ([PartOf(ts[2])] + TAIL), path);
    OneStep(cls, ts[1], [PartOf(ts[2])] + TAIL, path[1..]);
    OneStep(cls, ts[2], TAIL, path[1..][1..]);
    TailAccepts(cls, path[1..][1..][1..]);
  }
}
