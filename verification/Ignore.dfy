/** Docker ignore rules: the pattern-to-regex compiler, and the matcher on segments it is measured by. */
module Ignore {
  import opened Split

  // ---- Regular expressions -----------------------------------------------------------------------

  /** The fragment the compiler emits. Class carries the text of a bracket class. */
  datatype Re =
    | Lit(c: char)
    | NotSlash
    | Dot
    | Class(text: string)
    | Cat(a: Re, b: Re)
    | Star(r: Re)
    | Opt(r: Re)
    | End

  /** Which characters a bracket class admits is left to the regex engine. */
  type ClassOf = (string, char) -> bool

  /** r can match the first n characters of s. */
  predicate Matches(cls: ClassOf, r: Re, s: string, n: nat)
    requires n <= |s|
    decreases r, n
  {
    match r
    case Lit(c) => n == 1 && s[0] == c
    case NotSlash => n == 1 && s[0] != '/'
    case Dot => n == 1 && s[0] != '\n'
    case Class(text) => n == 1 && cls(text, s[0])
    case Cat(a, b) => exists k: nat :: k <= n && Matches(cls, a, s, k) && Matches(cls, b, s[k..], n - k)
    case Star(q) => n == 0 || exists k: nat :: 0 < k <= n && Matches(cls, q, s, k) && Matches(cls, r, s[k..], n - k)
    case Opt(q) => n == 0 || Matches(cls, q, s, n)
    case End => n == 0 && (s == [] || s == "\n")
  }

  /** re.match of the concatenated parts: some split of a prefix of s. */
  predicate Accepts(cls: ClassOf, parts: seq<Re>, s: string) {
    parts == [] || exists k: nat :: k <= |s| && Matches(cls, parts[0], s, k) && Accepts(cls, parts[1..], s[k..])
  }

  // ---- The compiler ------------------------------------------------------------------------------

  /** One step of a pattern segment. */
  datatype Token = Any | One | Char(c: char) | Bracket(text: string)

  function FindClose(s: string): (k: nat)
    ensures k <= |s| && (k < |s| ==> s[k] == ']') && forall j :: 0 <= j < k ==> s[j] != ']'
  {
    if s == [] || s[0] == ']' then 0 else 1 + FindClose(s[1..])
  }

  /** The token at the head of a non-empty segment, and how many characters it takes. */
  function HeadToken(segment: string): (r: (Token, nat))
    requires segment != []
    ensures 0 < r.1 <= |segment|
  {
    if segment[0] == '*' then (Any, 1)
    else if segment[0] == '?' then (One, 1)
    else if segment[0] == '[' && FindClose(segment[1..]) < |segment| - 1 then
      var close := 1 + FindClose(segment[1..]);
      (Bracket(segment[..close + 1]), close + 1)
    else (Char(segment[0]), 1)
  }

  function Tokens(segment: string): seq<Token>
    decreases |segment|
  {
    if segment == [] then []
    else
      var (t, width) := HeadToken(segment);
      [t] + Tokens(segment[width..])
  }

  function PartOf(t: Token): Re {
    match t
    case Any => Star(NotSlash)
    case One => NotSlash
    case Char(c) => Lit(c)
    case Bracket(text) => Class(text)
  }

  function Parts(ts: seq<Token>): (ps: seq<Re>)
    ensures |ps| == |ts|
  {
    seq(|ts|, i requires 0 <= i < |ts| => PartOf(ts[i]))
  }

  /** _segment_regex. */
  method SegmentRegex(segment: string) returns (out: seq<Re>)
    ensures out == Parts(Tokens(segment))
  {
    hide Parts, Tokens, FindClose;
    out := [];
    var index := 0;
    NoTokens();
    while index < |segment|
      invariant index <= |segment|
      invariant out + Parts(Tokens(segment[index..])) == Parts(Tokens(segment))
    {
      ghost var rest, before := segment[index..], out;
      HeadPart(rest);
      ghost var part, width := PartOf(HeadToken(rest).0), HeadToken(rest).1;
      var c := segment[index];
      if c == '[' {
        var close := FindClose(segment[index + 1..]);
        assert rest[1..] == segment[index + 1..];
        if close == |segment| - index - 1 {
          out := out + [Lit(c)];
        } else {
          assert segment[index..index + close + 2] == rest[..close + 2];
          out := out + [Class(segment[index..index + close + 2])];
          index := index + close + 1;
        }
      } else {
        out := out + [if c == '*' then Star(NotSlash) else if c == '?' then NotSlash else Lit(c)];
      }
      index := index + 1;
      assert out == before + [part] && segment[index..] == rest[width..];
      Reassociate(before, [part], Parts(Tokens(rest[width..])));
    }
    assert segment[index..] == [];
  }

  lemma Reassociate(before: seq<Re>, part: seq<Re>, after: seq<Re>)
    ensures before + part + after == before + (part + after)
  {
  }

  lemma NoTokens()
    ensures Parts(Tokens([])) == []
  {
  }

  lemma HeadPart(segment: string)
    requires segment != []
    ensures Parts(Tokens(segment)) == [PartOf(HeadToken(segment).0)] + Parts(Tokens(segment[HeadToken(segment).1..]))
  {
    ConsParts(HeadToken(segment).0, Tokens(segment[HeadToken(segment).1..]));
  }

  lemma ConsParts(t: Token, ts: seq<Token>)
    ensures Parts([t] + ts) == [PartOf(t)] + Parts(ts)
  {
  }

  const SEGMENTS: Re := Star(Cat(Cat(NotSlash, Star(NotSlash)), Lit('/')))
  const TAIL: seq<Re> := [Opt(Cat(Lit('/'), Star(Dot))), End]

  function SegmentParts(segment: string, last: bool): seq<Re> {
    if segment == "**" then [if last then Star(Dot) else SEGMENTS]
    else Parts(Tokens(segment)) + if last then [] else [Lit('/')]
  }

  function PatternParts(segments: seq<string>): seq<Re> {
    if segments == [] then []
    else SegmentParts(segments[0], |segments| == 1) + PatternParts(segments[1..])
  }

  /** _pattern_regex. */
  method PatternRegex(pattern: string) returns (parts: seq<Re>)
    ensures parts == PatternParts(SplitOn(pattern, '/')) + TAIL
  {
    hide Parts, Tokens, PatternParts;
    parts := [];
    NoSegments();
    var segments := SplitOn(pattern, '/');
    for position := 0 to |segments|
      invariant parts + PatternParts(segments[position..]) == PatternParts(segments)
    {
      var segment, last := segments[position], position == |segments| - 1;
      PatternStep(segments, position);
      ghost var before, after := parts, PatternParts(segments[position + 1..]);
      Reassociate(before, SegmentParts(segment, last), after);
      if segment == "**" {
        parts := parts + [if last then Star(Dot) else SEGMENTS];
      } else {
        var own := SegmentRegex(segment);
        parts := parts + (own + if last then [] else [Lit('/')]);
      }
      assert parts == before + SegmentParts(segment, last);
    }
    assert segments[0..] == segments && segments[|segments|..] == [];
    parts := parts + TAIL;
  }

  lemma NoSegments()
    ensures PatternParts([]) == []
  {
  }

  lemma PatternStep(segments: seq<string>, k: nat)
    requires k < |segments|
    ensures PatternParts(segments[k..])
      == SegmentParts(segments[k], k == |segments| - 1) + PatternParts(segments[k + 1..])
  {
    assert segments[k..][1..] == segments[k + 1..];
  }

  function StripLeft(s: string, c: char): string {
    if s != [] && s[0] == c then StripLeft(s[1..], c) else s
  }

  function StripRight(s: string, c: char): string {
    if s != [] && s[|s| - 1] == c then StripRight(s[..|s| - 1], c) else s
  }

  function PatternOf(rule: string): string { StripRight(StripLeft(rule, '/'), '/') }

  predicate Denies(cls: ClassOf, rule: string, path: string) {
    Accepts(cls, PatternParts(SplitOn(PatternOf(rule), '/')) + TAIL, path)
  }

  /** The tokens of a pattern segment against some text. */
  ghost predicate Glob(cls: ClassOf, ts: seq<Token>, seg: string)
    decreases |ts| + |seg|
  {
    if ts == [] then seg == []
    else match ts[0]
      case Any => Glob(cls, ts[1..], seg) || (seg != [] && seg[0] != '/' && Glob(cls, ts, seg[1..]))
      case One => seg != [] && seg[0] != '/' && Glob(cls, ts[1..], seg[1..])
      case Char(c) => seg != [] && seg[0] == c && Glob(cls, ts[1..], seg[1..])
      case Bracket(text) => seg != [] && cls(text, seg[0]) && Glob(cls, ts[1..], seg[1..])
  }

  // ---- The matcher on the pattern's own text -----------------------------------------------------------

  /** A pattern segment against some text: `*` takes any run without separators, `?` one character that is none, `[` up
      to the next `]` one character of that class, and any other character itself; a `[` never closed is itself. */
  ghost predicate Reads(cls: ClassOf, segment: string, text: string)
    decreases |segment|
  {
    if segment == "" then text == ""
    else if segment[0] == '*' then
      exists k :: 0 <= k <= |text| && '/' !in text[..k] && Reads(cls, segment[1..], text[k..])
    else if text == "" then false
    else if segment[0] == '?' then text[0] != '/' && Reads(cls, segment[1..], text[1..])
    else if segment[0] == '[' && ']' in segment then
      exists e :: ClosesAt(segment, e) && cls(segment[..e + 1], text[0]) && Reads(cls, segment[e + 1..], text[1..])
    else text[0] == segment[0] && Reads(cls, segment[1..], text[1..])
  }

  ghost predicate ClosesAt(segment: string, e: int) {
    0 <= e < |segment| && segment[e] == ']' && ']' !in segment[..e]
  }

  /** Segment by segment: a final ** spans one or more, any other ** zero or more. */
  ghost predicate MatchSegments(cls: ClassOf, pattern: seq<string>, segs: seq<string>)
    decreases |pattern| + |segs|
  {
    if pattern == [] then segs == []
    else if pattern[0] == "**" then
      if |pattern| == 1 then segs != []
      else MatchSegments(cls, pattern[1..], segs) || (segs != [] && MatchSegments(cls, pattern, segs[1..]))
    else segs != [] && Reads(cls, pattern[0], segs[0]) && MatchSegments(cls, pattern[1..], segs[1..])
  }

  /** The path or one of its ancestor directories matches. */
  ghost predicate MatchesAncestor(cls: ClassOf, pattern: seq<string>, segs: seq<string>) {
    exists k :: 1 <= k <= |segs| && MatchSegments(cls, pattern, segs[..k])
  }

  /** The same, except that a pattern segment may take several path segments with the separators between them. */
  ghost predicate MatchWide(cls: ClassOf, pattern: seq<string>, segs: seq<string>)
    decreases |pattern| + |segs|
  {
    if pattern == [] then segs == []
    else if pattern[0] == "**" then
      if |pattern| == 1 then segs != []
      else MatchWide(cls, pattern[1..], segs) || (segs != [] && MatchWide(cls, pattern, segs[1..]))
    else exists j :: 1 <= j <= |segs| && TakesFirst(cls, pattern[0], segs, j) && MatchWide(cls, pattern[1..], segs[j..])
  }

  /** A pattern segment matches the first j path segments, joined. */
  ghost predicate TakesFirst(cls: ClassOf, segment: string, segs: seq<string>, j: nat)
    requires 1 <= j <= |segs|
  {
    Reads(cls, segment, Join(segs[..j], '/'))
  }

  ghost predicate WideAncestor(cls: ClassOf, pattern: seq<string>, segs: seq<string>) {
    exists k :: 1 <= k <= |segs| && MatchWide(cls, pattern, segs[..k])
  }

  ghost predicate PathSegments(segs: seq<string>) {
    segs != [] && forall i :: 0 <= i < |segs| ==> segs[i] != [] && '/' !in segs[i] && '\n' !in segs[i]
  }

  ghost predicate Admits(cls: ClassOf, t: Token, c: char) {
    match t
    case Any => false
    case One => c != '/'
    case Char(x) => c == x
    case Bracket(text) => cls(text, c)
  }

  /** No token admits the separator. */
  ghost predicate Confined(cls: ClassOf, ts: seq<Token>) {
    forall i :: 0 <= i < |ts| ==> !Admits(cls, ts[i], '/')
  }

  /** No bracket class of the pattern admits the separator; the other tokens never do. */
  ghost predicate ClassesConfined(cls: ClassOf, pattern: seq<string>) {
    forall i :: 0 <= i < |pattern| ==> forall j :: 0 <= j < |Tokens(pattern[i])| ==>
      Tokens(pattern[i])[j].Bracket? ==> !cls(Tokens(pattern[i])[j].text, '/')
  }

  lemma {:induction false} TokensAvoidSlash(segment: string, j: nat)
    requires '/' !in segment && j < |Tokens(segment)|
    ensures Tokens(segment)[j] != Char('/')
    decreases |segment|
  {
    if j > 0 {
      TokensAvoidSlash(segment[HeadToken(segment).1..], j - 1);
    }
  }

  lemma ConfinedSegment(cls: ClassOf, pattern: seq<string>, i: nat)
    requires i < |pattern| && AllFree(pattern, '/') && ClassesConfined(cls, pattern)
    ensures Confined(cls, Tokens(pattern[i]))
  {
    assert Free(pattern[i], '/');
    forall j | 0 <= j < |Tokens(pattern[i])| ensures !Admits(cls, Tokens(pattern[i])[j], '/') {
      TokensAvoidSlash(pattern[i], j);
    }
  }
}
