/** Finite sums of reals: the algebra the posterior and strategy proofs rest on. */
module Sums {

  function Sum(n: nat, f: int -> real): real {
    if n == 0 then 0.0 else Sum(n - 1, f) + f(n - 1)
  }

  function Abs(x: real): (r: real)
    ensures r >= 0.0 && (r == x || r == -x) && r >= x && r >= -x
  {
    if x < 0.0 then -x else x
  }

  /** A product under a name of its own, with its sign. */
  ghost function Product(x: real, y: real): (p: real)
    ensures p == x * y
    ensures x > 0.0 && y > 0.0 ==> p > 0.0
    ensures (x >= 0.0 && y >= 0.0) || x == y ==> p >= 0.0
  {
    x * y
  }

  lemma {:induction false} SumCong(n: nat, f: int -> real, g: int -> real)
    requires forall i :: 0 <= i < n ==> f(i) == g(i)
    ensures Sum(n, f) == Sum(n, g)
  {
    if n > 0 { SumCong(n - 1, f, g); }
  }

  lemma {:induction false} SumLe(n: nat, f: int -> real, g: int -> real)
    requires forall i :: 0 <= i < n ==> f(i) <= g(i)
    ensures Sum(n, f) <= Sum(n, g)
  {
    if n > 0 { SumLe(n - 1, f, g); }
  }

  lemma {:induction false} SumConst(n: nat, f: int -> real, c: real)
    requires forall i :: 0 <= i < n ==> f(i) == c
    ensures Sum(n, f) == c * n as real
  {
    if n > 0 {
      SumConst(n - 1, f, c);
      assert c * n as real == c * (n - 1) as real + c;
    }
  }

  lemma LinearStep(a: real, x: real, p: real, x': real, b: real, y: real, q: real, y': real, z: real, r: real, z': real)
    requires z == a * x + b * y && r == a * p + b * q
    requires x' == x + p && y' == y + q && z' == z + r
    ensures z' == a * x' + b * y'
  {
    assert a * x' == a * x + a * p && b * y' == b * y + b * q;
  }

  /** h is pointwise a*f + b*g. */
  lemma {:induction false} SumLinear(n: nat, h: int -> real, a: real, f: int -> real, b: real, g: int -> real)
    requires forall i :: 0 <= i < n ==> h(i) == a * f(i) + b * g(i)
    ensures Sum(n, h) == a * Sum(n, f) + b * Sum(n, g)
  {
    if n > 0 {
      SumLinear(n - 1, h, a, f, b, g);
      LinearStep(a, Sum(n - 1, f), f(n - 1), Sum(n, f), b, Sum(n - 1, g), g(n - 1), Sum(n, g),
        Sum(n - 1, h), h(n - 1), Sum(n, h));
    }
  }

  lemma {:induction false} SumScale(n: nat, h: int -> real, a: real, f: int -> real)
    requires forall i :: 0 <= i < n ==> h(i) == a * f(i)
    ensures Sum(n, h) == a * Sum(n, f)
  {
    if n > 0 {
      SumScale(n - 1, h, a, f);
      LinearStep(a, Sum(n - 1, f), f(n - 1), Sum(n, f), 0.0, 0.0, 0.0, 0.0, Sum(n - 1, h), h(n - 1), Sum(n, h));
    }
  }

  /** Only the k-th term is non-zero. */
  lemma {:induction false} SumSingle(n: nat, f: int -> real, k: int)
    requires forall i :: 0 <= i < n && i != k ==> f(i) == 0.0
    ensures Sum(n, f) == if 0 <= k < n then f(k) else 0.0
  {
    if n > 0 { SumSingle(n - 1, f, k); }
  }

  /** Changing the terms at p and q without changing their total keeps the sum. */
  lemma {:induction false} SumTrade(n: nat, f: int -> real, g: int -> real, p: int, q: int)
    requires 0 <= p < n && 0 <= q < n
    requires forall i :: 0 <= i < n && i != p && i != q ==> f(i) == g(i)
    requires if p == q then f(p) == g(p) else f(p) + f(q) == g(p) + g(q)
    ensures Sum(n, f) == Sum(n, g)
  {
    if p == n - 1 || q == n - 1 {
      var o := if p == n - 1 then q else p;
      if o == n - 1 {
        SumCong(n - 1, f, g);
      } else {
        var d := f(o) - g(o);
        SumShift(n - 1, f, g, o, d);
      }
    } else {
      SumTrade(n - 1, f, g, p, q);
    }
  }

  lemma {:induction false} SumShift(n: nat, f: int -> real, g: int -> real, k: int, d: real)
    requires 0 <= k < n && f(k) == g(k) + d
    requires forall i :: 0 <= i < n && i != k ==> f(i) == g(i)
    ensures Sum(n, f) == Sum(n, g) + d
  {
    if k == n - 1 { SumCong(n - 1, f, g); } else { SumShift(n - 1, f, g, k, d); }
  }

  /** Exchange of the order of summation: g is f with its arguments flipped. */
  lemma {:induction false} SumSwap(n: nat, m: nat, f: int -> int -> real, g: int -> int -> real,
                                   rows: int -> real, cols: int -> real)
    requires forall i, j :: 0 <= i < n && 0 <= j < m ==> g(j)(i) == f(i)(j)
    requires forall i :: 0 <= i < n ==> rows(i) == Sum(m, f(i))
    requires forall j :: 0 <= j < m ==> cols(j) == Sum(n, g(j))
    ensures Sum(n, rows) == Sum(m, cols)
  {
    if n == 0 {
      SumConst(m, cols, 0.0);
    } else {
      var cols' := j => Sum(n - 1, g(j));
      SumSwap(n - 1, m, f, g, rows, cols');
      SumLinear(m, cols, 1.0, cols', 1.0, f(n - 1));
    }
  }

  lemma {:induction false} SumAbs(n: nat, f: int -> real, g: int -> real)
    requires forall i :: 0 <= i < n ==> Abs(f(i)) <= g(i)
    ensures Abs(Sum(n, f)) <= Sum(n, g)
  {
    if n > 0 { SumAbs(n - 1, f, g); }
  }
}
