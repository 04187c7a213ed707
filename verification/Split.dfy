/** Splitting on a separator and joining back. */
module Split {

  predicate Free<T(==)>(part: seq<T>, sep: T) { sep !in part }

  predicate AllFree<T(==)>(parts: seq<seq<T>>, sep: T) {
    forall i :: 0 <= i < |parts| ==> Free(parts[i], sep)
  }

  function Join<T>(parts: seq<seq<T>>, sep: T): seq<T>
    requires parts != []
  {
    if |parts| == 1 then parts[0] else parts[0] + [sep] + Join(parts[1..], sep)
  }

  function SplitOn<T(==)>(s: seq<T>, sep: T): (parts: seq<seq<T>>)
    ensures parts != []
  {
    if s == [] then [[]]
    else
      var rest := SplitOn(s[1..], sep);
      if s[0] == sep then [[]] + rest else [[s[0]] + rest[0]] + rest[1..]
  }

  lemma {:induction false} SplitJoins<T>(s: seq<T>, sep: T)
    ensures AllFree(SplitOn(s, sep), sep) && Join(SplitOn(s, sep), sep) == s
  {
    if s != [] {
      var rest := SplitOn(s[1..], sep);
      SplitJoins(s[1..], sep);
      assert s == [s[0]] + s[1..];
      if s[0] == sep {
        assert ([[]] + rest)[1..] == rest;
      } else {
        var parts := [[s[0]] + rest[0]] + rest[1..];
        forall i | 0 <= i < |parts| ensures Free(parts[i], sep) { assert Free(rest[i], sep); }
        JoinCons(s[0], rest, sep);
      }
    }
  }

  lemma JoinCons<T>(x: T, parts: seq<seq<T>>, sep: T)
    requires parts != []
    ensures Join([[x] + parts[0]] + parts[1..], sep) == [x] + Join(parts, sep)
  {
    var more := [[x] + parts[0]] + parts[1..];
    assert more[1..] == parts[1..];
    if |parts| > 1 {
      assert Join(more, sep) == ([x] + parts[0]) + [sep] + Join(parts[1..], sep);
    }
  }

  lemma {:induction false} SplitFree<T>(part: seq<T>, sep: T)
    requires Free(part, sep)
    ensures SplitOn(part, sep) == [part]
  {
    if part != [] {
      assert part == [part[0]] + part[1..];
      SplitFree(part[1..], sep);
    }
  }

  lemma {:induction false} SplitAtFirst<T>(part: seq<T>, sep: T, tail: seq<T>)
    requires Free(part, sep)
    ensures SplitOn(part + [sep] + tail, sep) == [part] + SplitOn(tail, sep)
  {
    var s := part + [sep] + tail;
    if part == [] {
      assert s[1..] == tail;
    } else {
      assert part == [part[0]] + part[1..];
      SplitAtFirst(part[1..], sep, tail);
      assert s[1..] == part[1..] + [sep] + tail;
      var rest := SplitOn(s[1..], sep);
      assert rest == [part[1..]] + SplitOn(tail, sep);
      assert rest[0] == part[1..] && rest[1..] == SplitOn(tail, sep);
    }
  }

  lemma {:induction false} JoinSplits<T>(parts: seq<seq<T>>, sep: T)
    requires parts != [] && AllFree(parts, sep)
    ensures SplitOn(Join(parts, sep), sep) == parts
  {
    assert Free(parts[0], sep);
    if |parts| == 1 {
      SplitFree(parts[0], sep);
    } else {
      forall i | 0 <= i < |parts[1..]| ensures Free(parts[1..][i], sep) { assert Free(parts[i + 1], sep); }
      JoinSplits(parts[1..], sep);
      SplitAtFirst(parts[0], sep, Join(parts[1..], sep));
    }
  }
}
