/** A compiled rule denies exactly the paths that match it or lie below one that does. */
module IgnorePaths {
  import opened Split
  import opened Ignore
  import opened IgnoreSegments

  // ---- Boundaries of a joined path ----------------------------------------------------------------------

  /** The first separator of a joined path ends its first segment. */
  lemma JoinHead(segs: seq<string>)
    requires PathSegments(segs)
    ensures var s, w := Join(segs, '/'), |segs[0]|;
      && w <= |s| && s[..w] == segs[0] && (|segs| == 1 ==> s[w..] == [])
      && (|segs| > 1 ==> w < |s| && s[w] == '/' && s[w + 1..] == Join(segs[1..], '/') && PathSegments(segs[1..]))
  {
  }

  /** Joining the first j segments and the others gives the whole path. */
  lemma {:induction false} JoinAt(segs: seq<string>, j: nat)
    requires PathSegments(segs) && 1 <= j <= |segs|
    ensures var s, w := Join(segs, '/'), |Join(segs[..j], '/')|;
      && w <= |s| && s[..w] == Join(segs[..j], '/') && (j == |segs| ==> s[w..] == [])
      && (j < |segs| ==> w < |s| && s[w] == '/' && s[w + 1..] == Join(segs[j..], '/') && PathSegments(segs[j..]))
  {
    JoinHead(segs);
    if j == |segs| {
      assert segs[..j] == segs;
    } else if j > 1 {
      var rest := segs[1..];
      JoinAt(rest, j - 1);
      assert segs[..j][1..] == rest[..j - 1] && segs[j..] == rest[j - 1..] && segs[..j][0] == segs[0];
      JoinGrows(segs, j);
    }
  }

  lemma JoinGrows(segs: seq<string>, j: nat)
    requires PathSegments(segs) && 1 < j < |segs|
    requires var t, v := Join(segs[1..], '/'), Join(segs[1..][..j - 1], '/');
      |v| < |t| && t[..|v|] == v && t[|v|] == '/' && t[|v| + 1..] == Join(segs[1..][j - 1..], '/')
    ensures var s, w := Join(segs, '/'), |Join(segs[..j], '/')|;
      w < |s| && s[..w] == Join(segs[..j], '/') && s[w] == '/' && s[w + 1..] == Join(segs[j..], '/')
  {
    var t, head := Join(segs[1..], '/'), segs[0] + ['/'];
    assert segs[..j][1..] == segs[1..][..j - 1] && segs[j..] == segs[1..][j - 1..];
    assert Join(segs, '/') == head + t && Join(segs[..j], '/') == head + Join(segs[1..][..j - 1], '/');
    Prefixed(head, t, |Join(segs[1..][..j - 1], '/')|);
  }

  lemma Prefixed(head: string, t: string, v: nat)
    requires v < |t|
    ensures (head + t)[..|head| + v] == head + t[..v] && (head + t)[|head| + v] == t[v]
    ensures (head + t)[|head| + v + 1..] == t[v + 1..]
  {
  }

  /** A non-empty prefix that stops at the end or before a separator is a number of whole segments. */
  lemma {:induction false} WholeSegments(segs: seq<string>, k: nat) returns (j: nat)
    requires PathSegments(segs) && k <= |Join(segs, '/')| && (k < |Join(segs, '/')| ==> Join(segs, '/')[k] == '/')
    ensures 1 <= j <= |segs| && |Join(segs[..j], '/')| == k && (k < |Join(segs, '/')| <==> j < |segs|)
  {
    var s, w := Join(segs, '/'), |segs[0]|;
    JoinHead(segs);
    StopsAfterHead(segs, k);
    if k == w {
      j := 1;
    } else {
      var i := WholeSegments(segs[1..], k - w - 1);
      j := i + 1;
      assert segs[..j][1..] == segs[1..][..i];
      JoinAt(segs, j);
    }
  }

  /** A prefix without separator that stops at the end or before a separator is the first segment. */
  lemma FirstSegmentOnly(segs: seq<string>, k: nat)
    requires PathSegments(segs) && k <= |Join(segs, '/')|
    ensures k < |segs[0]| ==> k < |Join(segs, '/')| && Join(segs, '/')[k] != '/'
    ensures k > |segs[0]| ==> '/' in Join(segs, '/')[..k]
    ensures k == |segs[0]| ==> '/' !in Join(segs, '/')[..k]
  {
    var s, w := Join(segs, '/'), |segs[0]|;
    JoinHead(segs);
    if k < w { assert s[..w][k] == segs[0][k]; }
    if k > w { assert s[..k][w] == s[w]; }
  }

  lemma StopsAfterHead(segs: seq<string>, k: nat)
    requires PathSegments(segs) && k <= |Join(segs, '/')| && (k < |Join(segs, '/')| ==> Join(segs, '/')[k] == '/')
    ensures k == |segs[0]| || (|segs| > 1 && k > |segs[0]| && k - |segs[0]| - 1 <= |Join(segs[1..], '/')|
      && (k < |Join(segs, '/')| <==> k - |segs[0]| - 1 < |Join(segs[1..], '/')|)
      && (k < |Join(segs, '/')| ==> Join(segs[1..], '/')[k - |segs[0]| - 1] == '/'))
  {
    var s, w := Join(segs, '/'), |segs[0]|;
    JoinHead(segs);
    FirstSegmentOnly(segs, k);
    if w < k < |s| { assert s[w + 1..][k - w - 1] == s[k]; }
  }

  // ---- Whole paths -------------------------------------------------------------------------------------

  lemma LitStep(cls: ClassOf, c: char, rest: seq<Re>, s: string)
    ensures Accepts(cls, [Lit(c)] + rest, s) <==> s != [] && s[0] == c && Accepts(cls, rest, s[1..])
  {
    assert ([Lit(c)] + rest)[1..] == rest;
    if s != [] { assert Matches(cls, Lit(c), s, 1) <==> s[0] == c; }
  }

  ghost predicate NoNewline(s: string) { '\n' !in s }

  lemma {:induction false} DotsTake(cls: ClassOf, s: string)
    requires NoNewline(s)
    ensures Matches(cls, Star(Dot), s, |s|)
  {
    if s != [] {
      DotsTake(cls, s[1..]);
      assert Matches(cls, Dot, s, 1);
    }
  }

  /** The directory suffix accepts the end of the path or anything below a separator. */
  lemma TailAccepts(cls: ClassOf, s: string)
    requires NoNewline(s)
    ensures Accepts(cls, TAIL, s) <==> s == [] || s[0] == '/'
  {
    var below := Cat(Lit('/'), Star(Dot));
    assert TAIL[1..] == [End];
    EndAccepts(cls, []);
    if s != [] && s[0] == '/' {
      DotsTake(cls, s[1..]);
      assert Matches(cls, Lit('/'), s, 1);
      assert Matches(cls, below, s, |s|);
      assert Matches(cls, TAIL[0], s, |s|) && s[|s|..] == [];
    }
    if s == [] { assert Matches(cls, TAIL[0], s, 0) && s[0..] == []; }
    if k: nat :| k <= |s| && Matches(cls, TAIL[0], s, k) && Accepts(cls, TAIL[1..], s[k..]) {
      EndAccepts(cls, s[k..]);
      if k == 0 { assert s[0..] == s; } else { assert Matches(cls, below, s, k); }
    }
  }

  lemma EndAccepts(cls: ClassOf, s: string)
    ensures Accepts(cls, [End], s) <==> s == [] || s == "\n"
  {
    assert [End][1..] == [] && s[0..] == s;
    if s == [] || s == "\n" { assert Matches(cls, End, s, 0); }
  }

  lemma {:induction false} RunOfNotSlash(cls: ClassOf, s: string, n: nat)
    requires n <= |s|
    ensures Matches(cls, Star(NotSlash), s, n) <==> '/' !in s[..n]
  {
    if n > 0 {
      RunOfNotSlash(cls, s[1..], n - 1);
      assert s[..n] == [s[0]] + s[1..][..n - 1];
      if s[0] != '/' && '/' !in s[1..][..n - 1] {
        assert Matches(cls, NotSlash, s, 1);
      }
      if Matches(cls, Star(NotSlash), s, n) {
        var m: nat :| 0 < m <= n && Matches(cls, NotSlash, s, m) && Matches(cls, Star(NotSlash), s[m..], n - m);
      }
    }
  }

  lemma RunShape(cls: ClassOf, s: string, n: nat)
    requires n <= |s|
    ensures Matches(cls, SEGMENTS.r.a, s, n) <==> n >= 1 && '/' !in s[..n]
  {
    if n >= 1 {
      RunOfNotSlash(cls, s[1..], n - 1);
      assert s[..n] == [s[0]] + s[1..][..n - 1];
      if '/' !in s[..n] { assert Matches(cls, NotSlash, s, 1); }
    }
    if Matches(cls, SEGMENTS.r.a, s, n) {
      var i: nat :| i <= n && Matches(cls, NotSlash, s, i) && Matches(cls, Star(NotSlash), s[i..], n - i);
    }
  }

  /** A non-empty run without separator, then a separator. */
  lemma GroupShape(cls: ClassOf, s: string, n: nat)
    requires n <= |s|
    ensures Matches(cls, SEGMENTS.r, s, n) <==> n >= 2 && '/' !in s[..n - 1] && s[n - 1] == '/'
  {
    if n >= 2 {
      RunShape(cls, s, n - 1);
      assert Matches(cls, Lit('/'), s[n - 1..], 1) <==> s[n - 1] == '/';
    }
    if Matches(cls, SEGMENTS.r, s, n) {
      var j: nat :| j <= n && Matches(cls, SEGMENTS.r.a, s, j) && Matches(cls, Lit('/'), s[j..], n - j);
      RunShape(cls, s, j);
    }
  }

  /** One round of the ** group takes the first segment with its separator. */
  lemma GroupTakes(cls: ClassOf, segs: seq<string>, n: nat)
    requires PathSegments(segs) && n <= |Join(segs, '/')|
    ensures Matches(cls, SEGMENTS.r, Join(segs, '/'), n) <==> |segs| > 1 && n == |segs[0]| + 1
  {
    hide Matches;
    var s, w := Join(segs, '/'), |segs[0]|;
    GroupShape(cls, s, n);
    JoinHead(segs);
    FirstSegmentOnly(segs, w);
    if n > 0 { FirstSegmentOnly(segs, n - 1); }
  }

  lemma SegmentsStep(cls: ClassOf, rest: seq<Re>, segs: seq<string>)
    requires PathSegments(segs)
    ensures Accepts(cls, [SEGMENTS] + rest, Join(segs, '/')) <==>
      Accepts(cls, rest, Join(segs, '/')) || (|segs| > 1 && Accepts(cls, [SEGMENTS] + rest, Join(segs[1..], '/')))
  {
    hide Accepts, Matches;
    var s := Join(segs, '/');
    StarRounds(cls, SEGMENTS.r, rest, s);
    JoinHead(segs);
    forall m: nat | m <= |s| ensures Matches(cls, SEGMENTS.r, s, m) <==> |segs| > 1 && m == |segs[0]| + 1 {
      GroupTakes(cls, segs, m);
    }
  }

  lemma {:induction false} JoinNoNewline(segs: seq<string>)
    requires PathSegments(segs)
    ensures NoNewline(Join(segs, '/'))
  {
    if |segs| > 1 { JoinNoNewline(segs[1..]); }
  }

  // ---- The matcher on prefixes ---------------------------------------------------------------------------

  lemma {:induction false} NeedsSegment(cls: ClassOf, pattern: seq<string>)
    requires pattern != []
    ensures !MatchWide(cls, pattern, [])
  {
    if |pattern| > 1 && pattern[0] == "**" { NeedsSegment(cls, pattern[1..]); }
  }

  ghost predicate TakesSome(cls: ClassOf, segment: string, segs: seq<string>) {
    exists j :: 1 <= j <= |segs| && TakesFirst(cls, segment, segs, j)
  }

  lemma AncestorOfOne(cls: ClassOf, pattern: seq<string>, segs: seq<string>)
    requires |pattern| == 1 && segs != []
    ensures WideAncestor(cls, pattern, segs) <==> pattern[0] == "**" || TakesSome(cls, pattern[0], segs)
  {
    if pattern[0] == "**" {
      assert MatchWide(cls, pattern, segs[..1]);
    } else {
      if k :| 1 <= k <= |segs| && MatchWide(cls, pattern, segs[..k]) {
        var j :| 1 <= j <= k && TakesFirst(cls, pattern[0], segs[..k], j)
          && MatchWide(cls, pattern[1..], segs[..k][j..]);
        assert segs[..k][..j] == segs[..j];
        assert TakesFirst(cls, pattern[0], segs, j);
      }
      if j :| 1 <= j <= |segs| && TakesFirst(cls, pattern[0], segs, j) {
        assert segs[..j][..j] == segs[..j] && segs[..j][j..] == [];
        assert TakesFirst(cls, pattern[0], segs[..j], j);
        assert MatchWide(cls, pattern, segs[..j]);
      }
    }
  }

  ghost predicate TakesThen(cls: ClassOf, pattern: seq<string>, segs: seq<string>, j: nat)
    requires pattern != []
  {
    1 <= j < |segs| && TakesFirst(cls, pattern[0], segs, j) && WideAncestor(cls, pattern[1..], segs[j..])
  }

  lemma AncestorOfSegment(cls: ClassOf, pattern: seq<string>, segs: seq<string>)
    requires |pattern| > 1 && pattern[0] != "**"
    ensures WideAncestor(cls, pattern, segs) <==> exists j: nat :: TakesThen(cls, pattern, segs, j)
  {
    hide Reads;
    if k :| 1 <= k <= |segs| && MatchWide(cls, pattern, segs[..k]) {
      var j :| 1 <= j <= k && TakesFirst(cls, pattern[0], segs[..k], j) && MatchWide(cls, pattern[1..], segs[..k][j..]);
      assert segs[..k][..j] == segs[..j] && segs[..k][j..] == segs[j..][..k - j];
      NeedsSegment(cls, pattern[1..]);
      assert k > j;
      assert TakesThen(cls, pattern, segs, j);
    }
    if j: nat :| TakesThen(cls, pattern, segs, j) {
      var k :| 1 <= k <= |segs[j..]| && MatchWide(cls, pattern[1..], segs[j..][..k]);
      assert segs[..j + k][..j] == segs[..j] && segs[..j + k][j..] == segs[j..][..k];
      assert TakesFirst(cls, pattern[0], segs[..j + k], j);
      assert MatchWide(cls, pattern, segs[..j + k]);
    }
  }

  lemma AncestorOfSpan(cls: ClassOf, pattern: seq<string>, segs: seq<string>)
    requires |pattern| > 1 && pattern[0] == "**" && segs != []
    ensures WideAncestor(cls, pattern, segs)
      <==> (WideAncestor(cls, pattern[1..], segs) || (|segs| > 1 && WideAncestor(cls, pattern, segs[1..])))
  {
    NeedsSegment(cls, pattern);
    if k :| 1 <= k <= |segs| && MatchWide(cls, pattern, segs[..k]) {
      assert segs[..k][1..] == segs[1..][..k - 1];
      assert segs[1..][..0] == [];
    }
    if k :| 1 <= k <= |segs| && MatchWide(cls, pattern[1..], segs[..k]) {
      assert MatchWide(cls, pattern, segs[..k]);
    }
    if |segs| > 1 && WideAncestor(cls, pattern, segs[1..]) {
      var k :| 1 <= k <= |segs[1..]| && MatchWide(cls, pattern, segs[1..][..k]);
      assert segs[..k + 1][1..] == segs[1..][..k];
      assert MatchWide(cls, pattern, segs[..k + 1]);
    }
  }

  // ---- The compiler is right --------------------------------------------------------------------------------

  lemma LastSegment(cls: ClassOf, segment: string, segs: seq<string>)
    requires PathSegments(segs)
    ensures Accepts(cls, Parts(Tokens(segment)) + TAIL, Join(segs, '/')) <==> TakesSome(cls, segment, segs)
  {
    hide Accepts, Glob, Reads, Parts, Tokens, Join, PathSegments;
    NonEmpty(segs);
    var s, ts := Join(segs, '/'), Tokens(segment);
    SegmentCompiles(cls, ts, TAIL, s);
    forall k: nat | k <= |s| ensures Glob(cls, ts, s[..k]) <==> Reads(cls, segment, s[..k]) {
      TokensRead(cls, segment, s[..k]);
    }
    JoinNoNewline(segs);
    if k: nat :| SplitsAt(cls, ts, TAIL, s, k) {
      TailAccepts(cls, s[k..]);
      var j := WholeSegments(segs, k);
      JoinAt(segs, j);
      assert TakesFirst(cls, segment, segs, j);
    }
    if j :| 1 <= j <= |segs| && TakesFirst(cls, segment, segs, j) {
      JoinAt(segs, j);
      var k := |Join(segs[..j], '/')|;
      TailAccepts(cls, s[k..]);
      assert SplitsAt(cls, ts, TAIL, s, k);
    }
  }

  ghost predicate TakesThenAccepts(cls: ClassOf, segment: string, rest: seq<Re>, segs: seq<string>, j: nat) {
    1 <= j < |segs| && TakesFirst(cls, segment, segs, j) && Accepts(cls, rest, Join(segs[j..], '/'))
  }

  lemma MiddleSegment(cls: ClassOf, segment: string, rest: seq<Re>, segs: seq<string>)
    requires PathSegments(segs)
    ensures Accepts(cls, Parts(Tokens(segment)) + ([Lit('/')] + rest), Join(segs, '/'))
      <==> exists j: nat :: TakesThenAccepts(cls, segment, rest, segs, j)
  {
    hide Accepts, Glob, Reads, Parts, Tokens, Join, PathSegments;
    NonEmpty(segs);
    var s, ts, more := Join(segs, '/'), Tokens(segment), [Lit('/')] + rest;
    SegmentCompiles(cls, ts, more, s);
    forall k: nat | k <= |s| ensures Glob(cls, ts, s[..k]) <==> Reads(cls, segment, s[..k]) {
      TokensRead(cls, segment, s[..k]);
    }
    if k: nat :| SplitsAt(cls, ts, more, s, k) {
      LitStep(cls, '/', rest, s[k..]);
      var j := WholeSegments(segs, k);
      JoinAt(segs, j);
      assert s[k..][1..] == s[k + 1..];
      assert TakesThenAccepts(cls, segment, rest, segs, j);
    }
    if j: nat :| TakesThenAccepts(cls, segment, rest, segs, j) {
      JoinAt(segs, j);
      var k := |Join(segs[..j], '/')|;
      LitStep(cls, '/', rest, s[k..]);
      assert s[k..][1..] == s[k + 1..];
      assert SplitsAt(cls, ts, more, s, k);
    }
  }

  lemma FinalSpan(cls: ClassOf, segs: seq<string>)
    requires PathSegments(segs)
    ensures Accepts(cls, [Star(Dot)] + TAIL, Join(segs, '/'))
  {
    var s, ps := Join(segs, '/'), [Star(Dot)] + TAIL;
    JoinNoNewline(segs);
    DotsTake(cls, s);
    TailAccepts(cls, s[|s|..]);
    assert ps[1..] == TAIL;
  }

  /** The compiled regex accepts a path exactly when it or an ancestor matches the pattern, whatever its bracket
      classes admit. */
  lemma {:induction false} PathCompiles(cls: ClassOf, pattern: seq<string>, segs: seq<string>)
    requires pattern != [] && PathSegments(segs)
    ensures Accepts(cls, PatternParts(pattern) + TAIL, Join(segs, '/')) <==> WideAncestor(cls, pattern, segs)
    decreases |pattern| + |segs|
  {
    hide Accepts, Reads, WideAncestor, MatchWide, Parts, Tokens, TakesFirst, Join, PathSegments, TakesSome,
      PatternParts;
    var p := pattern[0];
    NonEmpty(segs);
    if |pattern| == 1 {
      OneSegmentPattern(pattern);
      AncestorOfOne(cls, pattern, segs);
      if p == "**" { FinalSpan(cls, segs); } else { LastSegment(cls, p, segs); }
    } else {
      var rest := PatternParts(pattern[1..]) + TAIL;
      LongerPattern(pattern);
      if p == "**" {
        AncestorOfSpan(cls, pattern, segs);
        SegmentsStep(cls, rest, segs);
        PathCompiles(cls, pattern[1..], segs);
        if |segs| > 1 {
          Tail(segs, 1);
          PathCompiles(cls, pattern, segs[1..]);
        }
      } else {
        AncestorOfSegment(cls, pattern, segs);
        MiddleSegment(cls, p, rest, segs);
        forall j: nat | 1 <= j < |segs|
          ensures TakesThen(cls, pattern, segs, j) <==> TakesThenAccepts(cls, p, rest, segs, j)
        {
          Tail(segs, j);
          PathCompiles(cls, pattern[1..], segs[j..]);
        }
      }
    }
  }

  lemma NonEmpty(segs: seq<string>)
    requires PathSegments(segs)
    ensures segs != []
  {
  }

  lemma Tail(segs: seq<string>, j: nat)
    requires PathSegments(segs) && j < |segs|
    ensures PathSegments(segs[j..])
  {
  }

  lemma LongerPattern(pattern: seq<string>)
    requires |pattern| > 1
    ensures var rest := PatternParts(pattern[1..]) + TAIL;
      PatternParts(pattern) + TAIL
      == if pattern[0] == "**" then [SEGMENTS] + rest else Parts(Tokens(pattern[0])) + ([Lit('/')] + rest)
  {
    hide Parts, Tokens;
    var x, after := SegmentParts(pattern[0], false), PatternParts(pattern[1..]);
    assert PatternParts(pattern) == x + after;
    hide PatternParts;
    Reassociate(x, after, TAIL);
    if pattern[0] != "**" { Reassociate(Parts(Tokens(pattern[0])), [Lit('/')], after + TAIL); }
  }

  lemma OneSegmentPattern(pattern: seq<string>)
    requires |pattern| == 1
    ensures PatternParts(pattern) == if pattern[0] == "**" then [Star(Dot)] else Parts(Tokens(pattern[0]))
  {
    assert Parts(Tokens(pattern[0])) + [] == Parts(Tokens(pattern[0]));
    assert PatternParts(pattern) == SegmentParts(pattern[0], true);
  }

  /** Every rule denies exactly the paths of which the path or an ancestor directory matches it, a pattern segment
      taking one path segment or, through a bracket class, several. */
  lemma DeniesExactly(cls: ClassOf, rule: string, segs: seq<string>)
    requires PathSegments(segs)
    ensures Denies(cls, rule, Join(segs, '/')) <==> WideAncestor(cls, SplitOn(PatternOf(rule), '/'), segs)
  {
    hide Accepts, WideAncestor;
    PathCompiles(cls, SplitOn(PatternOf(rule), '/'), segs);
  }

  /** So everything below a denied directory is denied. */
  lemma DenialInherited(cls: ClassOf, rule: string, segs: seq<string>, below: seq<string>)
    requires PathSegments(segs) && PathSegments(segs + below)
    requires Denies(cls, rule, Join(segs, '/'))
    ensures Denies(cls, rule, Join(segs + below, '/'))
  {
    hide Denies;
    var pattern := SplitOn(PatternOf(rule), '/');
    DeniesExactly(cls, rule, segs);
    var k :| 1 <= k <= |segs| && MatchWide(cls, pattern, segs[..k]);
    assert (segs + below)[..k] == segs[..k];
    DeniesExactly(cls, rule, segs + below);
  }
}
