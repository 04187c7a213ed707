/** What the rules one writes deny: slashes around a rule, plain names, and names by their ending. */
module IgnorePlain {
  import opened Split
  import opened Ignore
  import opened IgnoreSegments
  import opened IgnorePaths

  ghost predicate Plain(w: string) { '*' !in w && '?' !in w && '[' !in w }

  /** Without `*`, `?` and `[` a segment reads as itself alone. */
  lemma {:induction false} PlainReadsItself(cls: ClassOf, w: string, text: string)
    requires Plain(w)
    ensures Reads(cls, w, text) <==> text == w
  {
    if w != "" {
      assert w == [w[0]] + w[1..];
      if text != "" {
        assert text == [text[0]] + text[1..];
        PlainReadsItself(cls, w[1..], text[1..]);
      }
    }
  }

  /** A star before plain text reads as any text ending in it, the rest free of separators. */
  lemma StarReadsSuffix(cls: ClassOf, w: string, text: string)
    requires Plain(w)
    ensures Reads(cls, "*" + w, text) <==> |w| <= |text| && text[|text| - |w|..] == w && '/' !in text[..|text| - |w|]
  {
    hide Reads;
    assert ("*" + w)[1..] == w;
    StarReadsSome(cls, "*" + w, text);
    forall k | 0 <= k <= |text| ensures Reads(cls, w, text[k..]) <==> text[k..] == w {
      PlainReadsItself(cls, w, text[k..]);
    }
    if |w| <= |text| && text[|text| - |w|..] == w && '/' !in text[..|text| - |w|] {
      assert StarTakes(cls, w, text, |text| - |w|);
    }
  }

  // ---- Slashes around a rule ------------------------------------------------------------------------------------

  ghost predicate Only(s: string, c: char) { forall i :: 0 <= i < |s| ==> s[i] == c }

  /** Neither begins nor ends with c. */
  ghost predicate Trimmed(s: string, c: char) { s != "" ==> s[0] != c && s[|s| - 1] != c }

  lemma {:induction false} StripsLeft(before: string, s: string, c: char)
    requires Only(before, c) && (s == "" || s[0] != c)
    ensures StripLeft(before + s, c) == s
  {
    if before == "" {
      assert before + s == s;
    } else {
      assert (before + s)[1..] == before[1..] + s;
      StripsLeft(before[1..], s, c);
    }
  }

  lemma {:induction false} StripsRight(s: string, after: string, c: char)
    requires Only(after, c) && (s == "" || s[|s| - 1] != c)
    ensures StripRight(s + after, c) == s
  {
    if after == "" {
      assert s + after == s;
    } else {
      var n := |after| - 1;
      assert (s + after)[..|s + after| - 1] == s + after[..n];
      StripsRight(s, after[..n], c);
    }
  }

  /** Slashes around a rule say nothing, as long as something is between them. */
  lemma TrimmedRuleDenies(cls: ClassOf, before: string, pattern: string, after: string, segs: seq<string>)
    requires Only(before, '/') && Only(after, '/') && pattern != "" && Trimmed(pattern, '/') && PathSegments(segs)
    ensures Denies(cls, before + pattern + after, Join(segs, '/')) <==> WideAncestor(cls, SplitOn(pattern, '/'), segs)
  {
    hide Denies, WideAncestor, Join;
    assert before + pattern + after == before + (pattern + after);
    assert (pattern + after)[0] == pattern[0];
    StripsLeft(before, pattern + after, '/');
    StripsRight(pattern, after, '/');
    DeniesExactly(cls, before + pattern + after, segs);
  }

  // ---- One name --------------------------------------------------------------------------------------------------

  /** A segment that takes no separator. */
  ghost predicate KeepsToOne(cls: ClassOf, x: string) {
    x != "" && x != "**" && '/' !in x && forall text :: Reads(cls, x, text) ==> '/' !in text
  }

  /** At the top level such a rule looks at the first segment of the path alone. */
  lemma TopRuleDenies(cls: ClassOf, x: string, segs: seq<string>)
    requires KeepsToOne(cls, x) && PathSegments(segs)
    ensures Denies(cls, x, Join(segs, '/')) <==> Reads(cls, x, segs[0])
  {
    hide Denies, Reads;
    assert x == "" + x + "";
    TrimmedRuleDenies(cls, "", x, "", segs);
    SplitFree(x, '/');
    AncestorOfOne(cls, [x], segs);
    TakesOne(cls, x, segs);
  }

  lemma TakesOne(cls: ClassOf, x: string, segs: seq<string>)
    requires KeepsToOne(cls, x) && segs != []
    ensures TakesSome(cls, x, segs) <==> Reads(cls, x, segs[0])
  {
    hide Reads;
    assert Join(segs[..1], '/') == segs[0];
    assert TakesFirst(cls, x, segs, 1) <==> Reads(cls, x, segs[0]);
    forall j | 2 <= j <= |segs| ensures !TakesFirst(cls, x, segs, j) {
      assert Join(segs[..j], '/')[|segs[0]|] == '/';
    }
  }

  /** After a double star it looks at every segment of the path. */
  lemma AnywhereRuleDenies(cls: ClassOf, x: string, segs: seq<string>)
    requires KeepsToOne(cls, x) && PathSegments(segs)
    ensures Denies(cls, "**/" + x, Join(segs, '/')) <==> exists i :: 0 <= i < |segs| && Reads(cls, x, segs[i])
  {
    hide Denies, Reads, WideAncestor, PathSegments;
    Anywhere(x);
    var rule := "**/" + x;
    assert rule == "" + rule + "";
    TrimmedRuleDenies(cls, "", rule, "", segs);
    NonEmpty(segs);
    AnyDepth(cls, x, segs);
  }

  lemma Anywhere(x: string)
    requires '/' !in x && x != ""
    ensures Trimmed("**/" + x, '/') && SplitOn("**/" + x, '/') == ["**", x]
  {
    var rule := "**/" + x;
    assert rule[0] == '*' && rule[|rule| - 1] == x[|x| - 1];
    SplitFree(x, '/');
    SplitAtFirst("**", '/', x);
    assert "**" + ['/'] == "**/";
  }

  lemma {:induction false} AnyDepth(cls: ClassOf, x: string, segs: seq<string>)
    requires KeepsToOne(cls, x) && segs != []
    ensures WideAncestor(cls, ["**", x], segs) <==> exists i :: 0 <= i < |segs| && Reads(cls, x, segs[i])
  {
    hide Reads, WideAncestor, TakesSome;
    AncestorOfSpan(cls, ["**", x], segs);
    assert ["**", x][1..] == [x];
    AncestorOfOne(cls, [x], segs);
    TakesOne(cls, x, segs);
    if |segs| > 1 {
      AnyDepth(cls, x, segs[1..]);
      if i :| 1 <= i < |segs| && Reads(cls, x, segs[i]) { assert segs[1..][i - 1] == segs[i]; }
    }
  }

  /** A plain name denies the top-level entry of that name and everything below; after a double star, any entry. */
  lemma NameDenies(cls: ClassOf, w: string, segs: seq<string>)
    requires Plain(w) && w != "" && '/' !in w && PathSegments(segs)
    ensures Denies(cls, w, Join(segs, '/')) <==> segs[0] == w
    ensures Denies(cls, "**/" + w, Join(segs, '/')) <==> w in segs
  {
    hide Denies, Reads;
    forall text ensures Reads(cls, w, text) <==> text == w { PlainReadsItself(cls, w, text); }
    TopRuleDenies(cls, w, segs);
    AnywhereRuleDenies(cls, w, segs);
  }

  ghost predicate EndsWith(s: string, w: string) { |w| <= |s| && s[|s| - |w|..] == w }

  /** A star before a plain ending denies the top-level entries that end so, and everything below them; after a double
      star, any entry. */
  lemma EndingDenies(cls: ClassOf, w: string, segs: seq<string>)
    requires Plain(w) && w != "" && '/' !in w && PathSegments(segs)
    ensures Denies(cls, "*" + w, Join(segs, '/')) <==> EndsWith(segs[0], w)
    ensures Denies(cls, "**/*" + w, Join(segs, '/')) <==> exists i :: 0 <= i < |segs| && EndsWith(segs[i], w)
  {
    hide Denies, Reads;
    var x := "*" + w;
    assert x[1..] == w && "**/" + x == "**/*" + w;
    forall text ensures Reads(cls, x, text) <==> EndsWith(text, w) && '/' !in text {
      StarReadsSuffix(cls, w, text);
      if EndsWith(text, w) { assert text == text[..|text| - |w|] + w; }
    }
    TopRuleDenies(cls, x, segs);
    AnywhereRuleDenies(cls, x, segs);
  }
}
