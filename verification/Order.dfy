/** Strict total orders, the code-point order of strings, and sorting without duplicates. */
module Order {

  ghost predicate StrictTotal<T(!new)>(less: (T, T) -> bool) {
    && (forall a :: !less(a, a))
    && (forall a, b :: a == b || less(a, b) || less(b, a))
    && (forall a, b, c :: less(a, b) && less(b, c) ==> less(a, c))
  }

  ghost predicate Sorted<T>(less: (T, T) -> bool, xs: seq<T>) {
    forall i, j :: 0 <= i < j < |xs| ==> less(xs[i], xs[j])
  }

  function Elements<T>(xs: seq<T>): set<T> { set x | x in xs }

  /** Code-point order, as Python compares strings. */
  predicate LexLess(a: string, b: string) {
    if b == [] then false
    else if a == [] then true
    else a[0] < b[0] || (a[0] == b[0] && LexLess(a[1..], b[1..]))
  }

  lemma {:induction false} LexIrreflexive(a: string)
    ensures !LexLess(a, a)
  {
    if a != [] { LexIrreflexive(a[1..]); }
  }

  lemma {:induction false} LexConnected(a: string, b: string)
    ensures a == b || LexLess(a, b) || LexLess(b, a)
  {
    if a != [] && b != [] && a[0] == b[0] {
      LexConnected(a[1..], b[1..]);
      assert a == [a[0]] + a[1..] && b == [b[0]] + b[1..];
    }
  }

  lemma {:induction false} LexTransitive(a: string, b: string, c: string)
    requires LexLess(a, b) && LexLess(b, c)
    ensures LexLess(a, c)
  {
    if a != [] && a[0] == b[0] && b[0] == c[0] { LexTransitive(a[1..], b[1..], c[1..]); }
  }

  lemma LexTotal()
    ensures StrictTotal(LexLess)
  {
    forall a: string ensures !LexLess(a, a) { LexIrreflexive(a); }
    forall a: string, b: string ensures a == b || LexLess(a, b) || LexLess(b, a) { LexConnected(a, b); }
    forall a: string, b: string, c: string | LexLess(a, b) && LexLess(b, c) ensures LexLess(a, c) {
      LexTransitive(a, b, c);
    }
  }

  /** What the order means: at the first difference the lower code point comes first, and a proper prefix does. */
  ghost predicate CodePointsBefore(a: string, b: string) {
    exists k :: DiffersAt(a, b, k) && (k == |a| || (k < |b| && a[k] < b[k]))
  }

  ghost predicate DiffersAt(a: string, b: string, k: int) {
    && 0 <= k <= |a| && k <= |b| && a[..k] == b[..k]
    && if k < |a| && k < |b| then a[k] != b[k] else |a| != |b|
  }

  lemma SameHead(a: string, b: string, k: int)
    requires DiffersAt(a, b, k) && k > 0
    ensures a != "" && b != "" && a[0] == b[0]
  {
    assert a[..k][0] == b[..k][0];
  }

  lemma {:induction false} LexMeans(a: string, b: string)
    ensures LexLess(a, b) <==> CodePointsBefore(a, b)
  {
    if a == "" || b == "" || a[0] != b[0] {
      if LexLess(a, b) { assert DiffersAt(a, b, 0); }
      if k :| DiffersAt(a, b, k) && k > 0 { SameHead(a, b, k); }
    } else {
      LexMeans(a[1..], b[1..]);
      if k :| DiffersAt(a[1..], b[1..], k) && (k == |a[1..]| || (k < |b[1..]| && a[1..][k] < b[1..][k])) {
        assert a[..k + 1] == [a[0]] + a[1..][..k] && b[..k + 1] == [b[0]] + b[1..][..k];
        assert DiffersAt(a, b, k + 1);
      }
      if k :| DiffersAt(a, b, k) && (k == |a| || (k < |b| && a[k] < b[k])) {
        assert k > 0 && a[1..][..k - 1] == a[..k][1..] && b[1..][..k - 1] == b[..k][1..];
        assert DiffersAt(a[1..], b[1..], k - 1);
      }
    }
  }

  /** x put in its place; already present, nothing changes. */
  function Insert<T(==)>(less: (T, T) -> bool, xs: seq<T>, x: T): seq<T> {
    if xs == [] then [x]
    else if xs[0] == x then xs
    else if less(x, xs[0]) then [x] + xs
    else [xs[0]] + Insert(less, xs[1..], x)
  }

  /** sorted(set(xs)). */
  function SortUnique<T(==)>(less: (T, T) -> bool, xs: seq<T>): seq<T> {
    if xs == [] then [] else Insert(less, SortUnique(less, xs[1..]), xs[0])
  }

  lemma {:induction false} InsertSorts<T(!new)>(less: (T, T) -> bool, xs: seq<T>, x: T)
    requires StrictTotal(less) && Sorted(less, xs)
    ensures Sorted(less, Insert(less, xs, x)) && Elements(Insert(less, xs, x)) == Elements(xs) + {x}
  {
    if xs != [] && xs[0] != x {
      var rest := Insert(less, xs[1..], x);
      InsertSorts(less, xs[1..], x);
      if less(x, xs[0]) {
        ConsSorts(less, x, xs);
      } else {
        ConsElements(xs[0], xs[1..]);
        forall y | y in Elements(xs[1..]) + {x} ensures less(xs[0], y) {}
        ConsSorts(less, xs[0], rest);
        ConsElements(xs[0], rest);
        assert xs == [xs[0]] + xs[1..];
      }
    }
  }

  lemma ConsElements<T(!new)>(x: T, xs: seq<T>)
    ensures Elements([x] + xs) == {x} + Elements(xs)
  {
  }

  lemma ConsSorts<T(!new)>(less: (T, T) -> bool, x: T, xs: seq<T>)
    requires StrictTotal(less) && Sorted(less, xs)
    requires xs == [] || less(x, xs[0]) || forall y :: y in Elements(xs) ==> less(x, y)
    ensures Sorted(less, [x] + xs) && Elements([x] + xs) == {x} + Elements(xs)
  {
    forall k | 0 <= k < |xs| ensures less(x, xs[k]) { assert xs[k] in Elements(xs); }
  }

  lemma {:induction false} SortUniqueSorts<T(!new)>(less: (T, T) -> bool, xs: seq<T>)
    requires StrictTotal(less)
    ensures Sorted(less, SortUnique(less, xs)) && Elements(SortUnique(less, xs)) == Elements(xs)
  {
    if xs != [] {
      SortUniqueSorts(less, xs[1..]);
      InsertSorts(less, SortUnique(less, xs[1..]), xs[0]);
      assert xs == [xs[0]] + xs[1..];
      assert Elements(xs) == Elements(xs[1..]) + {xs[0]};
    }
  }

  /** A sorted sequence is determined by its elements. */
  lemma {:induction false} SortedDetermined<T(!new)>(less: (T, T) -> bool, xs: seq<T>, ys: seq<T>)
    requires StrictTotal(less) && Sorted(less, xs) && Sorted(less, ys) && Elements(xs) == Elements(ys)
    ensures xs == ys
  {
    if xs == [] {
      NoElements(xs);
      NoElements(ys);
    } else {
      assert xs[0] in Elements(xs);
      NoElements(ys);
      assert ys[0] in Elements(ys);
      assert xs[0] == ys[0] by {
        var i :| 0 <= i < |xs| && xs[i] == ys[0];
        var j :| 0 <= j < |ys| && ys[j] == xs[0];
      }
      forall x ensures x in Elements(xs[1..]) <==> x in Elements(ys[1..]) {
        TailElements(less, xs, x);
        TailElements(less, ys, x);
      }
      SortedDetermined(less, xs[1..], ys[1..]);
    }
  }

  lemma NoElements<T(!new)>(xs: seq<T>)
    ensures Elements(xs) == {} <==> xs == []
  {
    if xs != [] { assert xs[0] in Elements(xs); }
  }

  lemma TailElements<T(!new)>(less: (T, T) -> bool, xs: seq<T>, x: T)
    requires StrictTotal(less) && Sorted(less, xs) && xs != []
    ensures x in Elements(xs[1..]) <==> x in Elements(xs) && x != xs[0]
  {
    if x in Elements(xs) && x != xs[0] {
      var i :| 0 <= i < |xs| && xs[i] == x;
      assert xs[1..][i - 1] == x;
    }
  }

  /** So sorting forgets order and repetition. */
  lemma SortForgetsOrder<T(!new)>(less: (T, T) -> bool, xs: seq<T>, ys: seq<T>)
    requires StrictTotal(less) && Elements(xs) == Elements(ys)
    ensures SortUnique(less, xs) == SortUnique(less, ys)
  {
    SortUniqueSorts(less, xs);
    SortUniqueSorts(less, ys);
    SortedDetermined(less, SortUnique(less, xs), SortUnique(less, ys));
  }
}
