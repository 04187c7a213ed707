/** The canonical order of kinds and the sorting of a set of them. */
module Kinds {
  import opened Order
  import opened Graph

  const SCOUT := "scout"
  const CODER := "coder"
  const REVIEWER := "reviewer"
  const KINDS: seq<string> := [SCOUT, CODER, REVIEWER, "planner", "llm.summarize", "transform.extract_field"]

  // ---- Positions --------------------------------------------------------------------------------

  /** Index of the first x, or the length when absent. */
  function First(q: seq<string>, x: string): (i: nat)
    ensures i <= |q| && (i < |q| <==> x in q) && (i < |q| ==> q[i] == x)
    ensures forall k :: 0 <= k < i ==> q[k] != x
  {
    if q == [] then 0 else if q[0] == x then 0 else 1 + First(q[1..], x)
  }

  lemma FirstInDistinct(q: seq<string>, i: nat)
    requires Distinct(q) && i < |q|
    ensures First(q, q[i]) == i
  {
  }

  /** Kinds in chain order: REVIEWER last, then the vocabulary, then the name. */
  predicate KindBefore(a: string, b: string) {
    if (a == REVIEWER) != (b == REVIEWER) then b == REVIEWER
    else if First(KINDS, a) != First(KINDS, b) then First(KINDS, a) < First(KINDS, b)
    else LexLess(a, b)
  }

  /** The place of a name in a chain: the vocabulary in its order, any other name, and the reviewer at the end. */
  ghost function Standing(k: string): nat {
    if k == "scout" then 0
    else if k == "coder" then 1
    else if k == "planner" then 2
    else if k == "llm.summarize" then 3
    else if k == "transform.extract_field" then 4
    else if k == "reviewer" then 6
    else 5
  }

  /** Names outside the vocabulary stand among each other by code point. */
  ghost predicate StandsBefore(a: string, b: string) {
    Standing(a) < Standing(b) || (Standing(a) == Standing(b) == 5 && CodePointsBefore(a, b))
  }

  lemma KindOrderMeans(a: string, b: string)
    ensures KindBefore(a, b) <==> StandsBefore(a, b)
  {
    VocabularyIndex(a);
    VocabularyIndex(b);
    hide First, CodePointsBefore;
    LexMeans(a, b);
    LexIrreflexive(a);
  }

  lemma VocabularyIndex(k: string)
    ensures First(KINDS, k) ==
      match Standing(k)
      case 0 => 0
      case 1 => 1
      case 6 => 2
      case 2 => 3
      case 3 => 4
      case 4 => 5
      case _ => 6
  {
    assert KINDS[0] == "scout" && KINDS[1] == "coder" && KINDS[2] == "reviewer" && KINDS[3] == "planner";
    assert KINDS[4] == "llm.summarize" && KINDS[5] == "transform.extract_field";
  }

  lemma KindTotal()
    ensures StrictTotal(KindBefore)
  {
    LexTotal();
    hide LexLess, First;
  }

  // ---- Sorting a set ------------------------------------------------------------------------------

  ghost function Listing(s: set<string>): (xs: seq<string>)
    ensures Elements(xs) == s
  {
    if s == {} then []
    else
      var x :| x in s;
      var rest := Listing(s - {x});
      assert Elements([x] + rest) == {x} + Elements(rest);
      [x] + rest
  }

  ghost function SortedKinds(s: set<string>): (xs: seq<string>)
    ensures Sorted(KindBefore, xs) && Elements(xs) == s && Distinct(xs)
  {
    KindTotal();
    SortUniqueSorts(KindBefore, Listing(s));
    SortUnique(KindBefore, Listing(s))
  }

  /** sorted(s, key=_kind_order): repeatedly insert an element of the set in its place. */
  method SortKinds(s: set<string>) returns (xs: seq<string>)
    ensures xs == SortedKinds(s)
    ensures Elements(xs) == s && forall i, j :: 0 <= i < j < |xs| ==> StandsBefore(xs[i], xs[j])
  {
    hide KindBefore;
    KindTotal();
    xs := [];
    var todo := s;
    while todo != {}
      invariant todo <= s && Sorted(KindBefore, xs) && Elements(xs) == s - todo
    {
      var x :| x in todo;
      InsertSorts(KindBefore, xs, x);
      xs := Insert(KindBefore, xs, x);
      todo := todo - {x};
    }
    SortedDetermined(KindBefore, xs, SortedKinds(s));
    forall i, j | 0 <= i < j < |xs| ensures StandsBefore(xs[i], xs[j]) { KindOrderMeans(xs[i], xs[j]); }
  }
}
