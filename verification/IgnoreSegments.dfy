/** A compiled pattern segment accepts what the character matcher accepts. */
module IgnoreSegments {
  import opened Ignore

  /** k characters of s matched by ts, with what follows accepted by rest. */
  ghost predicate SplitsAt(cls: ClassOf, ts: seq<Token>, rest: seq<Re>, s: string, k: nat) {
    k <= |s| && Glob(cls, ts, s[..k]) && Accepts(cls, rest, s[k..])
  }

  lemma AcceptsHead(cls: ClassOf, r: Re, rest: seq<Re>, s: string)
    ensures Accepts(cls, [r] + rest, s)
      <==> exists k: nat :: k <= |s| && Matches(cls, r, s, k) && Accepts(cls, rest, s[k..])
  {
    hide Matches;
    assert ([r] + rest)[1..] == rest;
  }

  lemma StarLeaves(cls: ClassOf, q: Re, rest: seq<Re>, s: string)
    requires Accepts(cls, rest, s)
    ensures Accepts(cls, [Star(q)] + rest, s)
  {
    AcceptsHead(cls, Star(q), rest, s);
    assert Matches(cls, Star(q), s, 0) && s[0..] == s;
  }

  lemma StarGoesRound(cls: ClassOf, q: Re, rest: seq<Re>, s: string, m: nat)
    requires 0 < m <= |s| && Matches(cls, q, s, m) && Accepts(cls, [Star(q)] + rest, s[m..])
    ensures Accepts(cls, [Star(q)] + rest, s)
  {
    hide Accepts;
    AcceptsHead(cls, Star(q), rest, s[m..]);
    var k: nat :| k <= |s[m..]| && Matches(cls, Star(q), s[m..], k) && Accepts(cls, rest, s[m..][k..]);
    assert s[m..][k..] == s[m + k..];
    assert Matches(cls, Star(q), s, m + k);
    AcceptsHead(cls, Star(q), rest, s);
  }

  lemma FirstRound(cls: ClassOf, q: Re, s: string, k: nat) returns (m: nat)
    requires 0 < k <= |s| && Matches(cls, Star(q), s, k)
    ensures 0 < m <= k && Matches(cls, q, s, m) && Matches(cls, Star(q), s[m..], k - m)
  {
    m :| 0 < m <= k && Matches(cls, q, s, m) && Matches(cls, Star(q), s[m..], k - m);
  }

  /** A star that accepts with some split leaves at once or after a first round. */
  lemma StarSplit(cls: ClassOf, q: Re, rest: seq<Re>, s: string, k: nat) returns (m: nat)
    requires 0 < k <= |s| && Matches(cls, Star(q), s, k) && Accepts(cls, rest, s[k..])
    ensures 0 < m <= |s| && Matches(cls, q, s, m) && Accepts(cls, [Star(q)] + rest, s[m..])
  {
    hide Accepts, Matches;
    m := FirstRound(cls, q, s, k);
    assert s[m..][k - m..] == s[k..];
    AcceptsHead(cls, Star(q), rest, s[m..]);
  }

  /** A star is left at once, or makes a non-empty round and starts again. */
  lemma StarRounds(cls: ClassOf, q: Re, rest: seq<Re>, s: string)
    ensures Accepts(cls, [Star(q)] + rest, s) <==>
      Accepts(cls, rest, s) || exists m: nat ::
        0 < m <= |s| && Matches(cls, q, s, m) && Accepts(cls, [Star(q)] + rest, s[m..])
  {
    hide Accepts, Matches;
    AcceptsHead(cls, Star(q), rest, s);
    if k: nat :| k <= |s| && Matches(cls, Star(q), s, k) && Accepts(cls, rest, s[k..]) {
      if k == 0 {
        assert s[0..] == s;
      } else {
        var m := StarSplit(cls, q, rest, s, k);
      }
    }
    if Accepts(cls, rest, s) { StarLeaves(cls, q, rest, s); }
    if m: nat :| 0 < m <= |s| && Matches(cls, q, s, m) && Accepts(cls, [Star(q)] + rest, s[m..]) {
      StarGoesRound(cls, q, rest, s, m);
    }
  }

  lemma StarStep(cls: ClassOf, rest: seq<Re>, s: string)
    ensures Accepts(cls, [Star(NotSlash)] + rest, s) <==>
      Accepts(cls, rest, s) || (s != [] && s[0] != '/' && Accepts(cls, [Star(NotSlash)] + rest, s[1..]))
  {
    hide Accepts;
    StarRounds(cls, NotSlash, rest, s);
    if s != [] { assert Matches(cls, NotSlash, s, 1) <==> s[0] != '/'; }
  }

  /** A compiled segment accepts exactly what the matcher does. */
  lemma {:induction false} SegmentCompiles(cls: ClassOf, ts: seq<Token>, rest: seq<Re>, s: string)
    ensures Accepts(cls, Parts(ts) + rest, s) <==> exists k: nat :: SplitsAt(cls, ts, rest, s, k)
    decreases |ts| + |s|
  {
    if ts == [] {
      assert Parts(ts) + rest == rest && s[..0] == [] && s[0..] == s;
      assert SplitsAt(cls, ts, rest, s, 0) <==> Accepts(cls, rest, s);
    } else {
      var t, ts' := ts[0], ts[1..];
      assert ts == [t] + ts';
      ConsParts(t, ts');
      assert Parts(ts) + rest == [PartOf(t)] + (Parts(ts') + rest);
      if t.Any? {
        StarStep(cls, Parts(ts') + rest, s);
        SegmentCompiles(cls, ts', rest, s);
        AnySplits(cls, ts, rest, s);
        if s != [] { SegmentCompiles(cls, ts, rest, s[1..]); }
      } else {
        OneStep(cls, t, Parts(ts') + rest, s);
        OneSplits(cls, ts, rest, s);
        if s != [] { SegmentCompiles(cls, ts', rest, s[1..]); }
      }
    }
  }

  lemma OneStep(cls: ClassOf, t: Token, rest: seq<Re>, s: string)
    requires !t.Any?
    ensures Accepts(cls, [PartOf(t)] + rest, s) <==> s != [] && Admits(cls, t, s[0]) && Accepts(cls, rest, s[1..])
  {
    assert ([PartOf(t)] + rest)[1..] == rest;
    if s != [] { assert Matches(cls, PartOf(t), s, 1) <==> Admits(cls, t, s[0]); }
  }

  lemma Shift(s: string, k: nat)
    requires 0 < k <= |s|
    ensures s[1..][..k - 1] == s[..k][1..] && s[1..][k - 1..] == s[k..] && s[..k][0] == s[0]
  {
  }

  lemma OneSplits(cls: ClassOf, ts: seq<Token>, rest: seq<Re>, s: string)
    requires ts != [] && !ts[0].Any?
    ensures (exists k: nat :: SplitsAt(cls, ts, rest, s, k))
      <==> s != [] && Admits(cls, ts[0], s[0]) && exists k: nat :: SplitsAt(cls, ts[1..], rest, s[1..], k)
  {
    hide Accepts;
    if k: nat :| SplitsAt(cls, ts, rest, s, k) {
      assert k > 0;
      Shift(s, k);
      assert SplitsAt(cls, ts[1..], rest, s[1..], k - 1);
    }
    if s != [] && Admits(cls, ts[0], s[0]) && exists k: nat :: SplitsAt(cls, ts[1..], rest, s[1..], k) {
      var k: nat :| SplitsAt(cls, ts[1..], rest, s[1..], k);
      Shift(s, k + 1);
      assert SplitsAt(cls, ts, rest, s, k + 1);
    }
  }

  lemma AnySplits(cls: ClassOf, ts: seq<Token>, rest: seq<Re>, s: string)
    requires ts != [] && ts[0].Any?
    ensures (exists k: nat :: SplitsAt(cls, ts, rest, s, k))
      <==> ((exists k: nat :: SplitsAt(cls, ts[1..], rest, s, k))
        || (s != [] && s[0] != '/' && exists k: nat :: SplitsAt(cls, ts, rest, s[1..], k)))
  {
    hide Accepts;
    if k: nat :| SplitsAt(cls, ts, rest, s, k) {
      if !Glob(cls, ts[1..], s[..k]) {
        Shift(s, k);
        assert SplitsAt(cls, ts, rest, s[1..], k - 1);
      } else {
        assert SplitsAt(cls, ts[1..], rest, s, k);
      }
    }
    if k: nat :| SplitsAt(cls, ts[1..], rest, s, k) {
      assert SplitsAt(cls, ts, rest, s, k);
    }
    if s != [] && s[0] != '/' && exists k: nat :: SplitsAt(cls, ts, rest, s[1..], k) {
      var k: nat :| SplitsAt(cls, ts, rest, s[1..], k);
      Shift(s, k + 1);
      assert SplitsAt(cls, ts, rest, s, k + 1);
    }
  }

  // ---- The tokens say what the text does ------------------------------------------------------------------

  /** The tokens of a pattern segment match exactly the texts the segment itself reads as. */
  lemma {:induction false} TokensRead(cls: ClassOf, segment: string, text: string)
    ensures Glob(cls, Tokens(segment), text) <==> Reads(cls, segment, text)
    decreases |segment| + |text|
  {
    hide Reads, Glob, Tokens;
    if segment == "" {
      NothingReads(cls, text);
    } else {
      HeadMatches(cls, segment, text);
      if segment[0] == '*' {
        TokensRead(cls, segment[1..], text);
        if text != "" { TokensRead(cls, segment, text[1..]); }
        StarReads(cls, segment, text);
      } else {
        if text != "" { TokensRead(cls, segment[HeadToken(segment).1..], text[1..]); }
        HeadReads(cls, segment, text);
      }
    }
  }

  lemma NothingReads(cls: ClassOf, text: string)
    ensures (Glob(cls, Tokens(""), text) <==> text == "") && (Reads(cls, "", text) <==> text == "")
  {
  }

  /** One step of the token matcher. */
  lemma HeadMatches(cls: ClassOf, segment: string, text: string)
    requires segment != ""
    ensures var (t, width) := HeadToken(segment);
      Glob(cls, Tokens(segment), text) <==>
      if t.Any? then
        || Glob(cls, Tokens(segment[width..]), text)
        || (text != "" && text[0] != '/' && Glob(cls, Tokens(segment), text[1..]))
      else text != "" && Admits(cls, t, text[0]) && Glob(cls, Tokens(segment[width..]), text[1..])
  {
    hide HeadToken;
    var (t, width) := HeadToken(segment);
    assert Tokens(segment)[0] == t && Tokens(segment)[1..] == Tokens(segment[width..]);
  }

  /** One step of reading the text, where it is not a star. */
  lemma HeadReads(cls: ClassOf, segment: string, text: string)
    requires segment != "" && segment[0] != '*'
    ensures var (t, width) := HeadToken(segment);
      Reads(cls, segment, text) <==> text != "" && Admits(cls, t, text[0]) && Reads(cls, segment[width..], text[1..])
  {
    if segment[0] == '[' {
      ClosesOnce(segment);
      var c := 1 + FindClose(segment[1..]);
      if c < |segment| { assert ClosesAt(segment, c) && HeadToken(segment) == (Bracket(segment[..c + 1]), c + 1); }
    }
  }

  ghost predicate StarTakes(cls: ClassOf, rest: string, text: string, k: int) {
    0 <= k <= |text| && '/' !in text[..k] && Reads(cls, rest, text[k..])
  }

  lemma StarReadsSome(cls: ClassOf, segment: string, text: string)
    requires segment != "" && segment[0] == '*'
    ensures Reads(cls, segment, text) <==> exists k :: StarTakes(cls, segment[1..], text, k)
  {
    if k :| StarTakes(cls, segment[1..], text, k) {
      assert 0 <= k <= |text| && '/' !in text[..k] && Reads(cls, segment[1..], text[k..]);
    }
    if Reads(cls, segment, text) {
      var k :| 0 <= k <= |text| && '/' !in text[..k] && Reads(cls, segment[1..], text[k..]);
      assert StarTakes(cls, segment[1..], text, k);
    }
  }

  /** A star reads nothing, or one character more. */
  lemma StarReads(cls: ClassOf, segment: string, text: string)
    requires segment != "" && segment[0] == '*'
    ensures Reads(cls, segment, text)
      <==> Reads(cls, segment[1..], text) || (text != "" && text[0] != '/' && Reads(cls, segment, text[1..]))
  {
    hide Reads;
    var rest := segment[1..];
    StarReadsSome(cls, segment, text);
    assert text[0..] == text && text[..0] == "";
    assert StarTakes(cls, rest, text, 0) <==> Reads(cls, rest, text);
    if text != "" {
      StarReadsSome(cls, segment, text[1..]);
      forall k | 0 < k <= |text|
        ensures StarTakes(cls, rest, text, k) <==> text[0] != '/' && StarTakes(cls, rest, text[1..], k - 1)
      {
        assert text[..k] == [text[0]] + text[1..][..k - 1] && text[1..][k - 1..] == text[k..];
      }
      if k :| StarTakes(cls, rest, text[1..], k) { assert text[0] != '/' ==> StarTakes(cls, rest, text, k + 1); }
    }
  }

  /** The class that opens a segment closes at the bracket the lexer finds, and nowhere else. */
  lemma ClosesOnce(segment: string)
    requires segment != "" && segment[0] == '['
    ensures ']' in segment <==> FindClose(segment[1..]) < |segment| - 1
    ensures forall e :: ClosesAt(segment, e) <==> e == 1 + FindClose(segment[1..]) < |segment|
  {
    var c := 1 + FindClose(segment[1..]);
    assert forall j :: 1 <= j < c ==> segment[j] == segment[1..][j - 1];
    assert forall j :: 0 <= j < c ==> segment[..c][j] != ']';
    if c < |segment| { assert segment[c] == segment[1..][c - 1]; }
  }

  /** A compiled segment takes exactly the texts its own text reads as. */
  lemma TextCompiles(cls: ClassOf, segment: string, rest: seq<Re>, s: string)
    ensures Accepts(cls, Parts(Tokens(segment)) + rest, s)
      <==> exists k :: 0 <= k <= |s| && Reads(cls, segment, s[..k]) && Accepts(cls, rest, s[k..])
  {
    hide Accepts, Reads, Glob, Tokens, Parts;
    SegmentCompiles(cls, Tokens(segment), rest, s);
    forall k: nat | k <= |s|
      ensures SplitsAt(cls, Tokens(segment), rest, s, k) <==> Reads(cls, segment, s[..k]) && Accepts(cls, rest, s[k..])
    {
      TokensRead(cls, segment, s[..k]);
    }
  }
}
