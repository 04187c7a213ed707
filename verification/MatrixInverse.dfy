/** The in-place Gauss-Jordan inverse behind the linear bandit policies. */
module MatrixInverse {
  import opened Sums

  type Vec = seq<real>
  type Matrix = seq<seq<real>>

  datatype Inverse = Inverted(value: Matrix) | Singular

  const PIVOT_FLOOR: real := 0.000000000001

  function Delta(i: int, j: int): real { if i == j then 1.0 else 0.0 }

  /** Entries of a vector or a matrix, zero outside the stored range. */
  function Get(v: Vec, i: int): real { if 0 <= i < |v| then v[i] else 0.0 }

  function At(m: Matrix, i: int, j: int): real { if 0 <= i < |m| then Get(m[i], j) else 0.0 }

  predicate Shape(m: Matrix, rows: nat, cols: nat) {
    |m| == rows && forall i :: 0 <= i < rows ==> |m[i]| == cols
  }

  ghost predicate Square(m: Matrix) { Shape(m, |m|, |m|) }

  /** Entry (i, j) of the product x*y, whose inner dimension is n. */
  ghost function Prod(n: nat, x: Matrix, y: Matrix, i: int, j: int): real {
    Sum(n, ProdTerm(x, y, i, j))
  }

  ghost function ProdTerm(x: Matrix, y: Matrix, i: int, j: int): int -> real {
    k => At(x, i, k) * At(y, k, j)
  }

  /** Entry i of the product a*v. */
  function Apply(a: Matrix, v: Vec, i: int): real {
    Sum(|v|, ApplyTerm(a, v, i))
  }

  function ApplyTerm(a: Matrix, v: Vec, i: int): int -> real {
    j => At(a, i, j) * Get(v, j)
  }

  function Dot(u: Vec, v: Vec): real {
    Sum(|v|, DotTerm(u, v))
  }

  function DotTerm(u: Vec, v: Vec): int -> real {
    i => Get(u, i) * Get(v, i)
  }

  ghost predicate IsInverse(r: Matrix, a: Matrix) {
    && Square(a) && Shape(r, |a|, |a|)
    && (forall i, j :: 0 <= i < |a| && 0 <= j < |a| ==> Prod(|a|, r, a, i, j) == Delta(i, j))
    && (forall i, j :: 0 <= i < |a| && 0 <= j < |a| ==> Prod(|a|, a, r, i, j) == Delta(i, j))
  }

  /** v has an entry 1 and a*v is below the pivot floor everywhere: a is singular to working precision. */
  ghost predicate NearNull(a: Matrix, v: Vec) {
    && |v| == |a| && (exists k :: 0 <= k < |v| && v[k] == 1.0)
    && forall p :: 0 <= p < |a| ==> Abs(Apply(a, v, p)) < 0.000000000001
  }

  /** A pivot of an n x n elimination that is at least 2/(n+1) in magnitude. */
  ghost predicate Conditioned(pivot: real, n: nat) { Abs(pivot) * (n + 1) as real >= 2.0 }

  /** v.Av >= v.v for every v: the ridge keeps the quadratic form above the identity. */
  ghost function Quad(a: Matrix, v: Vec): real {
    Sum(|v|, QuadTerm(a, v))
  }

  ghost function QuadTerm(a: Matrix, v: Vec): int -> real {
    i => Get(v, i) * Apply(a, v, i)
  }

  ghost predicate DominatesIdentity(a: Matrix) {
    Square(a) && forall v: Vec :: |v| == |a| ==> Quad(a, v) >= Dot(v, v)
  }

  // ---- Row operations and the ghost matrix that undoes them --------------------------------

  ghost predicate Augmented(g: Matrix, a: Matrix) {
    && Shape(g, |a|, 2 * |a|)
    && forall i, j :: 0 <= i < |a| && 0 <= j < |a| ==> At(g, i, j) == At(a, i, j) && At(g, i, |a| + j) == Delta(i, j)
  }

  /** The left half of the row is its right half times a. */
  ghost predicate RowOf(row: Vec, a: Matrix) {
    |row| == 2 * |a| && forall j :: 0 <= j < |a| ==> Get(row, j) == Sum(|a|, RowTerm(row, a, j))
  }

  ghost function RowTerm(row: Vec, a: Matrix, j: int): int -> real {
    k => Get(row, |a| + k) * At(a, k, j)
  }

  ghost predicate RowsOf(m: Matrix, a: Matrix) {
    |m| == |a| && forall i :: 0 <= i < |m| ==> RowOf(m[i], a)
  }

  /** s*m is the augmented matrix the loop started from. */
  ghost predicate Undoes(s: Matrix, m: Matrix, g: Matrix) {
    && Shape(s, |m|, |m|) && Shape(m, |m|, 2 * |m|) && |g| == |m|
    && forall i, j :: 0 <= i < |m| && 0 <= j < 2 * |m| ==> Prod(|m|, s, m, i, j) == At(g, i, j)
  }

  ghost predicate UnitColumns(m: Matrix, col: int) {
    forall i, j :: 0 <= i < |m| && 0 <= j < col ==> At(m, i, j) == Delta(i, j)
  }

  /** Row p of s, from column col on, is zero but for at most a 1 at position c[p]. */
  ghost predicate Untouched(s: Matrix, c: seq<int>, col: int) {
    |c| == |s| && forall p, r :: 0 <= p < |s| && col <= r < |s| ==> At(s, p, r) == Delta(r, c[p])
  }

  ghost function SwapColumns(s: Matrix, p: int, q: int): (t: Matrix)
    ensures |t| == |s| && forall i :: 0 <= i < |s| ==> |t[i]| == |s[i]|
  {
    seq(|s|, i requires 0 <= i < |s| =>
      seq(|s[i]|, k => if k == p then Get(s[i], q) else if k == q then Get(s[i], p) else Get(s[i], k)))
  }

  /** Column p becomes x times itself plus y times column q. */
  ghost function MixColumn(s: Matrix, p: int, x: real, q: int, y: real): (t: Matrix)
    ensures |t| == |s| && forall i :: 0 <= i < |s| ==> |t[i]| == |s[i]|
  {
    seq(|s|, i requires 0 <= i < |s| =>
      seq(|s[i]|, k => if k == p then x * Get(s[i], p) + y * Get(s[i], q) else Get(s[i], k)))
  }

  function ScaleRow(row: Vec, d: real): (r: Vec)
    requires d != 0.0
    ensures |r| == |row|
  {
    seq(|row|, j requires 0 <= j < |row| => row[j] / d)
  }

  function SubtractRow(row: Vec, f: real, other: Vec): (r: Vec)
    requires |row| == |other|
    ensures |r| == |row|
  {
    seq(|row|, j requires 0 <= j < |row| => row[j] - f * other[j])
  }

  lemma Distribute(x: real, u: real, y: real, v: real, t: real)
    ensures (x * u + y * v) * t == x * (u * t) + y * (v * t)
  {
    assert (x * u) * t == x * (u * t) && (y * v) * t == y * (v * t);
  }

  lemma RowMixAt(a: Matrix, u: Vec, x: real, v: Vec, y: real, w: Vec, j: int, k: int)
    requires |u| == |v| == |w| == 2 * |a| && 0 <= j < |a| && 0 <= k < |a|
    requires w[|a| + k] == x * u[|a| + k] + y * v[|a| + k]
    ensures RowTerm(w, a, j)(k) == x * RowTerm(u, a, j)(k) + y * RowTerm(v, a, j)(k)
  {
    Distribute(x, u[|a| + k], y, v[|a| + k], At(a, k, j));
  }

  lemma RowMix(a: Matrix, u: Vec, x: real, v: Vec, y: real, w: Vec)
    requires RowOf(u, a) && RowOf(v, a) && |w| == 2 * |a|
    requires forall j :: 0 <= j < |w| ==> w[j] == x * u[j] + y * v[j]
    ensures RowOf(w, a)
  {
    var n := |a|;
    forall j | 0 <= j < n ensures Get(w, j) == Sum(n, RowTerm(w, a, j)) {
      var h, f, g := RowTerm(w, a, j), RowTerm(u, a, j), RowTerm(v, a, j);
      forall k | 0 <= k < n ensures h(k) == x * f(k) + y * g(k) {
        RowMixAt(a, u, x, v, y, w, j, k);
      }
      SumLinear(n, h, x, f, y, g);
      assert w[j] == x * u[j] + y * v[j];
      assert u[j] == Get(u, j) && v[j] == Get(v, j);
    }
  }

  /** What terms p and q contribute together to one entry of the product. */
  ghost function Share(s: Matrix, m: Matrix, p: int, q: int, i: int, j: int): real
    requires Shape(s, |m|, |m|) && Shape(m, |m|, 2 * |m|) && 0 <= p < |m| && 0 <= q < |m|
    requires 0 <= i < |m| && 0 <= j < 2 * |m|
  {
    if p == q then At(s, i, p) * At(m, p, j) else At(s, i, p) * At(m, p, j) + At(s, i, q) * At(m, q, j)
  }

  /** A step that changes rows p, q of m and columns p, q of s, keeping what the two contribute together. */
  lemma UndoStep(s: Matrix, m: Matrix, g: Matrix, s': Matrix, m': Matrix, p: int, q: int)
    requires Undoes(s, m, g) && 0 <= p < |m| && 0 <= q < |m|
    requires Shape(s', |m|, |m|) && Shape(m', |m|, 2 * |m|)
    requires forall i, k :: 0 <= i < |m| && 0 <= k < |m| && k != p && k != q ==> At(s', i, k) == At(s, i, k)
    requires forall k, j :: 0 <= k < |m| && k != p && k != q && 0 <= j < 2 * |m| ==> At(m', k, j) == At(m, k, j)
    requires forall i, j :: 0 <= i < |m| && 0 <= j < 2 * |m| ==> Share(s', m', p, q, i, j) == Share(s, m, p, q, i, j)
    ensures Undoes(s', m', g)
  {
    var n := |m|;
    forall i, j | 0 <= i < n && 0 <= j < 2 * n ensures Prod(n, s', m', i, j) == At(g, i, j) {
      assert Prod(n, s, m, i, j) == At(g, i, j);
      UndoStepAt(s, m, s', m', p, q, i, j);
    }
  }

  lemma UndoStepAt(s: Matrix, m: Matrix, s': Matrix, m': Matrix, p: int, q: int, i: int, j: int)
    requires Shape(s, |m|, |m|) && Shape(m, |m|, 2 * |m|) && 0 <= p < |m| && 0 <= q < |m|
    requires Shape(s', |m|, |m|) && Shape(m', |m|, 2 * |m|) && 0 <= i < |m| && 0 <= j < 2 * |m|
    requires forall k :: 0 <= k < |m| && k != p && k != q ==> At(s', i, k) == At(s, i, k) && At(m', k, j) == At(m, k, j)
    requires Share(s', m', p, q, i, j) == Share(s, m, p, q, i, j)
    ensures Prod(|m|, s', m', i, j) == Prod(|m|, s, m, i, j)
  {
    var f, z := ProdTerm(s', m', i, j), ProdTerm(s, m, i, j);
    assert f(p) == At(s', i, p) * At(m', p, j) && z(p) == At(s, i, p) * At(m, p, j);
    assert f(q) == At(s', i, q) * At(m', q, j) && z(q) == At(s, i, q) * At(m, q, j);
    SumTrade(|m|, f, z, p, q);
  }

  lemma Start(a: Matrix, m: Matrix, s: Matrix, c: seq<int>)
    requires |c| == |a| && forall i :: 0 <= i < |c| ==> c[i] == i
    requires Square(a) && Augmented(m, a) && Shape(s, |a|, |a|)
    requires forall i, j :: 0 <= i < |a| && 0 <= j < |a| ==> At(s, i, j) == Delta(i, j)
    ensures RowsOf(m, a) && Undoes(s, m, m) && UnitColumns(m, 0) && Untouched(s, c, 0)
  {
    var n := |a|;
    forall i | 0 <= i < n ensures RowOf(m[i], a) {
      forall j | 0 <= j < n ensures Get(m[i], j) == Sum(n, RowTerm(m[i], a, j)) {
        var f := RowTerm(m[i], a, j);
        forall k | 0 <= k < n ensures f(k) == Delta(i, k) * At(a, k, j) {
          assert At(m, i, n + k) == Delta(i, k);
        }
        SumSingle(n, f, i);
        assert At(m, i, j) == At(a, i, j);
      }
    }
    forall i, j | 0 <= i < n && 0 <= j < 2 * n ensures Prod(n, s, m, i, j) == At(m, i, j) {
      SumSingle(n, ProdTerm(s, m, i, j), i);
    }
  }

  lemma SwapRows(m: Matrix, a: Matrix, p: int, q: int, m': Matrix)
    requires RowsOf(m, a) && UnitColumns(m, p) && 0 <= p <= q < |m|
    requires m' == m[p := m[q]][q := m[p]]
    ensures RowsOf(m', a) && UnitColumns(m', p)
  {
    forall i, j | 0 <= i < |m'| && 0 <= j < p ensures At(m', i, j) == Delta(i, j) {
      assert At(m, p, j) == 0.0 && At(m, q, j) == 0.0 && At(m, i, j) == Delta(i, j);
    }
  }

  lemma SwapUntouched(s: Matrix, c: seq<int>, p: int, q: int)
    requires Square(s) && Untouched(s, c, p) && 0 <= p <= q < |s|
    ensures exists c' :: Untouched(SwapColumns(s, p, q), c', p)
  {
    var c' := seq(|c|, i requires 0 <= i < |c| => if c[i] == p then q else if c[i] == q then p else c[i]);
    var s' := SwapColumns(s, p, q);
    forall i, r | 0 <= i < |s'| && p <= r < |s'| ensures At(s', i, r) == Delta(r, c'[i]) {
      assert At(s', i, r) == At(s, i, if r == p then q else if r == q then p else r);
    }
    assert Untouched(s', c', p);
  }

  lemma SwapUndo(s: Matrix, m: Matrix, g: Matrix, p: int, q: int, m': Matrix)
    requires Undoes(s, m, g) && 0 <= p <= q < |m| && m' == m[p := m[q]][q := m[p]]
    ensures Undoes(SwapColumns(s, p, q), m', g)
  {
    var s' := SwapColumns(s, p, q);
    forall i, j | 0 <= i < |m| && 0 <= j < 2 * |m| ensures Share(s', m', p, q, i, j) == Share(s, m, p, q, i, j) {
      assert At(s', i, p) == At(s, i, q) && At(s', i, q) == At(s, i, p);
      assert At(m', p, j) == At(m, q, j) && At(m', q, j) == At(m, p, j);
    }
    UndoStep(s, m, g, s', m', p, q);
  }

  lemma ScaleUndo(s: Matrix, m: Matrix, g: Matrix, p: int, d: real, m': Matrix)
    requires Undoes(s, m, g) && 0 <= p < |m| && d != 0.0
    requires m' == m[p := ScaleRow(m[p], d)]
    ensures Undoes(MixColumn(s, p, d, p, 0.0), m', g)
  {
    var s' := MixColumn(s, p, d, p, 0.0);
    forall i, j | 0 <= i < |m| && 0 <= j < 2 * |m|
      ensures Share(s', m', p, p, i, j) == Share(s, m, p, p, i, j)
    {
      ScaleUndoAt(s, m, p, d, i, j);
    }
    UndoStep(s, m, g, s', m', p, p);
  }

  lemma ScaleUndoAt(s: Matrix, m: Matrix, p: int, d: real, i: int, j: int)
    requires Shape(s, |m|, |m|) && Shape(m, |m|, 2 * |m|) && 0 <= p < |m| && d != 0.0 && 0 <= i < |m|
      && 0 <= j < 2 * |m|
    ensures At(MixColumn(s, p, d, p, 0.0), i, p) * At(m[p := ScaleRow(m[p], d)], p, j) == At(s, i, p) * At(m, p, j)
  {
    ScaleCancel(s[i][p], m[p][j], d);
  }

  lemma ScaleCancel(x: real, y: real, d: real)
    requires d != 0.0
    ensures (d * x) * (y / d) == x * y
  {
    assert d * (y / d) == y;
    assert (d * x) * (y / d) == x * (d * (y / d));
  }

  lemma EliminateUndo(s: Matrix, m: Matrix, g: Matrix, p: int, r: int, m': Matrix)
    requires Undoes(s, m, g) && 0 <= p < |m| && 0 <= r < |m| && r != p
    requires m' == m[r := SubtractRow(m[r], At(m, r, p), m[p])]
    ensures Undoes(MixColumn(s, p, 1.0, r, At(m, r, p)), m', g)
  {
    var f := At(m, r, p);
    var s' := MixColumn(s, p, 1.0, r, f);
    forall i, j | 0 <= i < |m| && 0 <= j < 2 * |m|
      ensures Share(s', m', p, r, i, j) == Share(s, m, p, r, i, j)
    {
      EliminateUndoAt(s, m, p, r, i, j);
    }
    UndoStep(s, m, g, s', m', p, r);
  }

  lemma EliminateUndoAt(s: Matrix, m: Matrix, p: int, r: int, i: int, j: int)
    requires Shape(s, |m|, |m|) && Shape(m, |m|, 2 * |m|) && 0 <= p < |m| && 0 <= r < |m| && r != p
    requires 0 <= i < |m| && 0 <= j < 2 * |m|
    ensures var s', m' := MixColumn(s, p, 1.0, r, At(m, r, p)), m[r := SubtractRow(m[r], At(m, r, p), m[p])];
      At(s', i, p) * At(m', p, j) + At(s', i, r) * At(m', r, j) == At(s, i, p) * At(m, p, j) + At(s, i, r) * At(m, r, j)
  {
    Cancel(s[i][p], s[i][r], m[p][j], m[r][j], m[r][p]);
  }

  lemma Cancel(x: real, y: real, u: real, v: real, f: real)
    ensures (x + f * y) * u + y * (v - f * u) == x * u + y * v
  {
    assert (x + f * y) * u == x * u + (f * y) * u && y * (v - f * u) == y * v - y * (f * u);
    assert (f * y) * u == y * (f * u);
  }

  lemma EliminateColumns(m: Matrix, p: int, r: int, m': Matrix)
    requires Shape(m, |m|, 2 * |m|) && UnitColumns(m, p)
    requires 0 <= p < |m| && 0 <= r < |m| && r != p && At(m, p, p) == 1.0
    requires m' == m[r := SubtractRow(m[r], At(m, r, p), m[p])]
    ensures UnitColumns(m', p) && At(m', r, p) == 0.0
  {
    forall i, j | 0 <= i < |m'| && 0 <= j < p ensures At(m', i, j) == Delta(i, j) {
      assert At(m, p, j) == 0.0 && At(m, i, j) == Delta(i, j);
      if i == r { assert m'[r][j] == m[r][j] - At(m, r, p) * m[p][j]; }
    }
    assert m'[r][p] == m[r][p] - At(m, r, p) * m[p][p];
  }

  // ---- The three row operations of one column ----------------------------------------------

  /** What holds of the working matrix m before column col, s and c being the ghost record of the work so far. */
  ghost predicate Progress(a: Matrix, g: Matrix, m: Matrix, s: Matrix, c: seq<int>, col: int) {
    && Square(a) && Augmented(g, a) && |m| == |a| && RowsOf(m, a)
    && Undoes(s, m, g) && UnitColumns(m, col) && Untouched(s, c, col)
  }

  /** Inside column col: the pivot is 1 and rows before k are cleared. */
  ghost predicate Clearing(a: Matrix, g: Matrix, m: Matrix, s: Matrix, c: seq<int>, col: int, k: int) {
    && Square(a) && Augmented(g, a) && |m| == |a| && RowsOf(m, a) && 0 <= col < |m|
    && Undoes(s, m, g) && UnitColumns(m, col) && Untouched(s, c, col + 1) && At(m, col, col) == 1.0
    && forall i :: 0 <= i < k && i < |m| && i != col ==> At(m, i, col) == 0.0
  }

  lemma SwapStep(a: Matrix, g: Matrix, m: Matrix, s: Matrix, c: seq<int>, p: int, q: int, m': Matrix)
    requires Progress(a, g, m, s, c, p) && 0 <= p <= q < |m| && m' == m[p := m[q]][q := m[p]]
    ensures exists s', c' :: Progress(a, g, m', s', c', p)
  {
    SwapRows(m, a, p, q, m');
    var s' := SwapColumns(s, p, q);
    SwapUndo(s, m, g, p, q, m');
    SwapUntouched(s, c, p, q);
    hide RowOf, UnitColumns, Untouched, Augmented;
    var c' :| Untouched(s', c', p);
    assert Progress(a, g, m', s', c', p);
  }

  lemma MixUntouched(s: Matrix, c: seq<int>, p: int, x: real, q: int, y: real)
    requires Square(s) && Untouched(s, c, p + 1)
    ensures Untouched(MixColumn(s, p, x, q, y), c, p + 1)
  {
    hide Delta;
    var s' := MixColumn(s, p, x, q, y);
    forall i, k | 0 <= i < |s| && p + 1 <= k < |s| ensures At(s', i, k) == At(s, i, k) {}
  }

  lemma ScaleStep(a: Matrix, g: Matrix, m: Matrix, s: Matrix, c: seq<int>, p: int, m': Matrix)
    requires Progress(a, g, m, s, c, p) && 0 <= p < |m| && At(m, p, p) != 0.0
    requires m' == m[p := ScaleRow(m[p], At(m, p, p))]
    ensures exists s' :: Clearing(a, g, m', s', c, p, 0)
  {
    var d := At(m, p, p);
    forall j | 0 <= j < |m'[p]| ensures m'[p][j] == 1.0 / d * m[p][j] + 0.0 * m[p][j] {
      ScaleRowAt(m[p], d, j);
    }
    RowMix(a, m[p], 1.0 / d, m[p], 0.0, m'[p]);
    ScaleUndo(s, m, g, p, d, m');
    var s' := MixColumn(s, p, d, p, 0.0);
    MixUntouched(s, c, p, d, p, 0.0);
    ScaleColumns(m, p, m');
    assert Clearing(a, g, m', s', c, p, 0);
  }

  lemma ScaleRowAt(row: Vec, d: real, j: int)
    requires 0 <= j < |row| && d != 0.0
    ensures ScaleRow(row, d)[j] == 1.0 / d * row[j] + 0.0 * row[j]
  {
  }

  lemma ScaleColumns(m: Matrix, p: int, m': Matrix)
    requires Shape(m, |m|, 2 * |m|) && UnitColumns(m, p) && 0 <= p < |m| && At(m, p, p) != 0.0
    requires m' == m[p := ScaleRow(m[p], At(m, p, p))]
    ensures UnitColumns(m', p) && At(m', p, p) == 1.0
  {
    forall i, j | 0 <= i < |m'| && 0 <= j < p ensures At(m', i, j) == Delta(i, j) {
      assert At(m, i, j) == Delta(i, j);
      if i == p { assert m'[p][j] == m[p][j] / At(m, p, p); }
    }
    assert m'[p][p] == m[p][p] / At(m, p, p);
  }

  lemma EliminateStep(a: Matrix, g: Matrix, m: Matrix, s: Matrix, c: seq<int>, p: int, r: int, next: int, m': Matrix)
    requires Clearing(a, g, m, s, c, p, r) && 0 <= r < |m| && r != p && next == r + 1
    requires m' == m[r := SubtractRow(m[r], At(m, r, p), m[p])]
    ensures exists s' :: Clearing(a, g, m', s', c, p, next)
  {
    hide RowOf, Untouched, UnitColumns, SubtractRow, Augmented;
    var f := At(m, r, p);
    forall j | 0 <= j < |m'[r]| ensures m'[r][j] == 1.0 * m[r][j] + (-f) * m[p][j] {
      SubtractRowAt(m[r], f, m[p], j);
    }
    RowMix(a, m[r], 1.0, m[p], -f, m'[r]);
    EliminateUndo(s, m, g, p, r, m');
    EliminateColumns(m, p, r, m');
    var s' := MixColumn(s, p, 1.0, r, f);
    MixUntouched(s, c, p, 1.0, r, f);
    forall i | 0 <= i < next && i < |m'| && i != p ensures At(m', i, p) == 0.0 {
      if i != r { assert At(m, i, p) == 0.0; }
    }
    assert At(m', p, p) == 1.0;
    assert RowsOf(m', a);
    assert Undoes(s', m', g);
    assert UnitColumns(m', p);
    assert Untouched(s', c, p + 1);
    assert Clearing(a, g, m', s', c, p, next);
  }

  lemma SubtractRowAt(row: Vec, f: real, other: Vec, j: int)
    requires 0 <= j < |row| == |other|
    ensures SubtractRow(row, f, other)[j] == 1.0 * row[j] + (-f) * other[j]
  {
  }

  lemma WorkingShape(s: Matrix, m: Matrix, g: Matrix)
    requires Undoes(s, m, g)
    ensures Shape(m, |m|, 2 * |m|)
  {
  }

  lemma ColumnDone(a: Matrix, g: Matrix, m: Matrix, s: Matrix, c: seq<int>, col: int)
    requires Clearing(a, g, m, s, c, col, |m|)
    ensures Progress(a, g, m, s, c, col + 1)
  {
  }

  lemma FinishLeft(m: Matrix, a: Matrix, r: Matrix, i: int, j: int)
    requires RowsOf(m, a) && UnitColumns(m, |a|) && |r| == |a| && 0 <= i < |a| && 0 <= j < |a| && r[i] == m[i][|a|..]
    ensures Prod(|a|, r, a, i, j) == Delta(i, j)
  {
    assert At(m, i, j) == Delta(i, j);
    var f, h := ProdTerm(r, a, i, j), RowTerm(m[i], a, j);
    forall k | 0 <= k < |a| ensures f(k) == h(k) {
      assert At(r, i, k) == Get(m[i], |a| + k);
    }
    SumCong(|a|, f, h);
  }

  lemma UndoIsOriginal(s: Matrix, m: Matrix, g: Matrix, a: Matrix, i: int, j: int)
    requires Augmented(g, a) && |m| == |a| && Undoes(s, m, g) && UnitColumns(m, |a|) && 0 <= i < |a| && 0 <= j < |a|
    ensures At(s, i, j) == At(a, i, j)
  {
    assert Prod(|a|, s, m, i, j) == At(g, i, j);
    SumSingle(|a|, ProdTerm(s, m, i, j), j);
  }

  lemma FinishRight(s: Matrix, m: Matrix, g: Matrix, a: Matrix, r: Matrix, i: int, j: int)
    requires Square(a) && Augmented(g, a) && |m| == |a| && Undoes(s, m, g) && 0 <= i < |a| && 0 <= j < |a|
    requires |r| == |a| && forall k :: 0 <= k < |a| ==> r[k] == m[k][|a|..]
    requires forall k :: 0 <= k < |a| ==> At(s, i, k) == At(a, i, k)
    ensures Prod(|a|, a, r, i, j) == Delta(i, j)
  {
    var n := |a|;
    assert Prod(n, s, m, i, n + j) == At(g, i, n + j);
    SumCong(n, ProdTerm(a, r, i, j), ProdTerm(s, m, i, n + j));
  }

  lemma Finish(s: Matrix, m: Matrix, g: Matrix, a: Matrix, c: seq<int>, r: Matrix)
    requires Progress(a, g, m, s, c, |a|)
    requires |r| == |a| && forall i :: 0 <= i < |a| ==> |m[i]| == 2 * |a| && r[i] == m[i][|a|..]
    ensures IsInverse(r, a)
  {
    hide Sum, UnitColumns, Undoes, Untouched, RowsOf, Augmented, Prod;
    var n := |a|;
    forall i, j | 0 <= i < n && 0 <= j < n ensures Prod(n, r, a, i, j) == Delta(i, j) {
      FinishLeft(m, a, r, i, j);
    }
    forall i, j | 0 <= i < n && 0 <= j < n ensures Prod(n, a, r, i, j) == Delta(i, j) {
      forall k | 0 <= k < n ensures At(s, i, k) == At(a, i, k) { UndoIsOriginal(s, m, g, a, i, k); }
      FinishRight(s, m, g, a, r, i, j);
    }
  }

  // ---- The pivot ---------------------------------------------------------------------------

  /** The vector the finished columns leave in the way of column col: a maps it to entries the candidate pivots
      bound. */
  ghost function Obstruction(m: Matrix, col: int): (v: Vec)
    ensures |v| == |m| && (0 <= col < |m| ==> v[col] == 1.0)
  {
    seq(|m|, j => if j < col then -At(m, j, col) else Delta(j, col))
  }

  lemma RowAgainstObstruction(m: Matrix, col: int, k: int)
    requires Shape(m, |m|, 2 * |m|) && UnitColumns(m, col) && 0 <= col < |m| && 0 <= k < |m|
    ensures Apply(m, Obstruction(m, col), k) == if k < col then 0.0 else At(m, k, col)
  {
    var v := Obstruction(m, col);
    var f := ApplyTerm(m, v, k);
    if k < col {
      var z := (j: int) => 0.0;
      SumTrade(|m|, f, z, k, col);
      SumConst(|m|, z, 0.0);
    } else {
      SumSingle(|m|, f, col);
    }
  }

  lemma ImageThroughUndo(s: Matrix, m: Matrix, g: Matrix, a: Matrix, v: Vec, p: int)
    requires Augmented(g, a) && Undoes(s, m, g) && |m| == |a| == |v| && 0 <= p < |m|
    ensures Apply(a, v, p) == Sum(|a|, NestedTerm(s, m, v, p))
  {
    hide Sum, NestedTerm, Get;
    ApplyProduct(s, m, v, p);
    forall j | 0 <= j < |a| ensures ApplyTerm(a, v, p)(j) == ProductTerm(s, m, v, p)(j) {
      assert Prod(|a|, s, m, p, j) == At(g, p, j) == At(a, p, j);
    }
    SumCong(|a|, ApplyTerm(a, v, p), ProductTerm(s, m, v, p));
  }

  lemma NestedEntry(s: Matrix, m: Matrix, c: seq<int>, col: int, p: int, k: int)
    requires Shape(m, |m|, 2 * |m|) && UnitColumns(m, col) && Untouched(s, c, col)
    requires |s| == |m| && 0 <= col < |m| && 0 <= p < |m| && 0 <= k < |m|
    ensures NestedTerm(s, m, Obstruction(m, col), p)(k) == if k >= col && k == c[p] then At(m, k, col) else 0.0
  {
    hide Apply, Obstruction;
    RowAgainstObstruction(m, col, k);
    if k >= col { assert At(s, p, k) == Delta(k, c[p]); }
  }

  lemma ObstructionImage(s: Matrix, m: Matrix, g: Matrix, a: Matrix, c: seq<int>, col: int, bound: real, p: int)
    requires Augmented(g, a) && Undoes(s, m, g) && UnitColumns(m, col) && Untouched(s, c, col)
    requires |m| == |a| && 0 <= col < |m| && 0 <= p < |m| && bound >= 0.0
    requires forall r :: col <= r < |m| ==> Abs(At(m, r, col)) <= bound
    ensures Abs(Apply(a, Obstruction(m, col), p)) <= bound
  {
    hide Sum, Apply, NestedTerm, Augmented, UnitColumns, At;
    var v := Obstruction(m, col);
    ImageThroughUndo(s, m, g, a, v, p);
    forall k | 0 <= k < |m| ensures NestedTerm(s, m, v, p)(k) == if k >= col && k == c[p] then At(m, k, col) else 0.0 {
      NestedEntry(s, m, c, col, p, k);
    }
    SumSingle(|m|, NestedTerm(s, m, v, p), c[p]);
  }

  /** The terms of (x*y)*v and of x*(y*v) at row p, before summing. */
  ghost function ByColumn(x: Matrix, y: Matrix, v: Vec, p: int): int -> int -> real {
    j => k => Get(v, j) * (At(x, p, k) * At(y, k, j))
  }

  ghost function ByRow(x: Matrix, y: Matrix, v: Vec, p: int): int -> int -> real {
    k => j => At(x, p, k) * (At(y, k, j) * Get(v, j))
  }

  ghost function ProductTerm(x: Matrix, y: Matrix, v: Vec, p: int): int -> real {
    j => Prod(|v|, x, y, p, j) * Get(v, j)
  }

  ghost function NestedTerm(x: Matrix, y: Matrix, v: Vec, p: int): int -> real {
    k => At(x, p, k) * Apply(y, v, k)
  }

  /** (x*y)*v == x*(y*v), entry by entry. */
  lemma ApplyProduct(x: Matrix, y: Matrix, v: Vec, p: int)
    ensures Sum(|v|, ProductTerm(x, y, v, p)) == Sum(|v|, NestedTerm(x, y, v, p))
  {
    hide Sum, At, ByColumn, ByRow, ProductTerm, NestedTerm;
    var n := |v|;
    forall j | 0 <= j < n ensures ProductTerm(x, y, v, p)(j) == Sum(n, ByColumn(x, y, v, p)(j)) {
      ProductColumn(x, y, v, p, j);
    }
    forall k | 0 <= k < n ensures NestedTerm(x, y, v, p)(k) == Sum(n, ByRow(x, y, v, p)(k)) {
      NestedRow(x, y, v, p, k);
    }
    forall j, k | 0 <= j < n && 0 <= k < n ensures ByRow(x, y, v, p)(k)(j) == ByColumn(x, y, v, p)(j)(k) {
      Flip(x, y, v, p, j, k);
    }
    SumSwap(n, n, ByColumn(x, y, v, p), ByRow(x, y, v, p), ProductTerm(x, y, v, p), NestedTerm(x, y, v, p));
  }

  lemma Flip(s: Matrix, m: Matrix, v: Vec, p: int, j: int, k: int)
    ensures ByRow(s, m, v, p)(k)(j) == ByColumn(s, m, v, p)(j)(k)
  {
    hide At, Get;
    Regroup(At(s, p, k), At(m, k, j), Get(v, j));
  }

  lemma NestedRow(x: Matrix, y: Matrix, v: Vec, p: int, k: int)
    ensures NestedTerm(x, y, v, p)(k) == Sum(|v|, ByRow(x, y, v, p)(k))
  {
    hide At, Get, Sum;
    SumScale(|v|, ByRow(x, y, v, p)(k), At(x, p, k), ApplyTerm(y, v, k));
  }

  lemma ProductColumn(x: Matrix, y: Matrix, v: Vec, p: int, j: int)
    ensures ProductTerm(x, y, v, p)(j) == Sum(|v|, ByColumn(x, y, v, p)(j))
  {
    hide At, Get, Sum;
    SumScale(|v|, ByColumn(x, y, v, p)(j), Get(v, j), ProdTerm(x, y, p, j));
  }

  lemma Regroup(x: real, y: real, z: real)
    ensures x * (y * z) == z * (x * y)
  {
  }

  lemma {:induction false} TwiceBelow(n: nat, form: int -> real, w: int -> real, bound: real)
    requires forall i :: 0 <= i < n ==> 2.0 * form(i) <= bound * w(i)
    ensures 2.0 * Sum(n, form) <= bound * Sum(n, w)
  {
    if n > 0 { TwiceBelow(n - 1, form, w, bound); }
  }

  lemma SumBelow(n: nat, sq: int -> real, form: int -> real, bound: real)
    requires forall i :: 0 <= i < n ==> 2.0 * form(i) <= bound * (1.0 + sq(i))
    ensures 2.0 * Sum(n, form) <= bound * (n as real + Sum(n, sq))
  {
    var one := (i: int) => 1.0;
    var w := i => 1.0 + sq(i);
    SumConst(n, one, 1.0);
    SumLinear(n, w, 1.0, one, 1.0, sq);
    TwiceBelow(n, form, w, bound);
  }

  lemma TermBelow(a: Matrix, v: Vec, bound: real, i: int)
    requires |v| == |a| && Abs(Apply(a, v, i)) <= bound
    ensures 2.0 * QuadTerm(a, v)(i) <= bound * (1.0 + DotTerm(v, v)(i))
  {
    ScaledBound(Get(v, i), Apply(a, v, i), bound);
  }

  lemma FormBelow(a: Matrix, v: Vec, bound: real)
    requires |v| == |a| && forall p :: 0 <= p < |a| ==> Abs(Apply(a, v, p)) <= bound
    ensures 2.0 * Quad(a, v) <= bound * (|a| as real + Dot(v, v))
  {
    hide Sum, Apply, QuadTerm, DotTerm;
    forall i | 0 <= i < |a| ensures 2.0 * QuadTerm(a, v)(i) <= bound * (1.0 + DotTerm(v, v)(i)) {
      TermBelow(a, v, bound, i);
    }
    SumBelow(|a|, DotTerm(v, v), QuadTerm(a, v), bound);
  }

  lemma ScaledBound(x: real, y: real, bound: real)
    requires Abs(y) <= bound
    ensures 2.0 * (x * y) <= bound * (1.0 + x * x)
  {
    var ax := Abs(x);
    assert x * y <= ax * bound by {
      if x >= 0.0 { assert x * (bound - y) >= 0.0; } else { assert (-x) * (bound + y) >= 0.0; }
    }
    var d := (1.0 - ax) * (1.0 - ax);
    assert d >= 0.0 && d == 1.0 - 2.0 * ax + x * x;
    assert bound * d >= 0.0;
    assert bound * d == bound - 2.0 * (ax * bound) + bound * (x * x);
  }

  lemma NormAtLeastOne(v: Vec, k: int)
    requires 0 <= k < |v| && v[k] == 1.0
    ensures Dot(v, v) >= 1.0
  {
    var e := i => Delta(i, k);
    SumSingle(|v|, e, k);
    SumLe(|v|, e, DotTerm(v, v));
  }

  /** On a matrix above the identity no vector with an entry 1 is mapped below 2/(n+1). */
  lemma DominanceSeparates(a: Matrix, v: Vec, pivot: real)
    requires DominatesIdentity(a) && |v| == |a| && (exists k :: 0 <= k < |v| && v[k] == 1.0)
    requires forall p :: 0 <= p < |a| ==> Abs(Apply(a, v, p)) <= Abs(pivot)
    ensures Conditioned(pivot, |a|)
  {
    hide Sum, Apply, QuadTerm, DotTerm;
    var k :| 0 <= k < |v| && v[k] == 1.0;
    NormAtLeastOne(v, k);
    FormBelow(a, v, Abs(pivot));
    assert Quad(a, v) >= Dot(v, v);
    Separation(Dot(v, v), |a| as real, Abs(pivot));
  }

  lemma Separation(q: real, n: real, b: real)
    requires q >= 1.0 && n >= 0.0 && b >= 0.0 && 2.0 * q <= b * (n + q)
    ensures b * (n + 1.0) >= 2.0
  {
    assert n + q <= q * (n + 1.0) by { assert (q - 1.0) * n >= 0.0; }
    assert b * (n + q) <= b * (q * (n + 1.0));
    assert b * (q * (n + 1.0)) == q * (b * (n + 1.0));
    CancelFactor(q, 2.0, b * (n + 1.0));
  }

  lemma CancelFactor(q: real, x: real, y: real)
    requires q >= 1.0 && q * x <= q * y
    ensures x <= y
  {
    assert q * (y - x) >= 0.0;
  }

  lemma Weaken(pivot: real, bound: real, n: nat)
    requires Conditioned(pivot, n) && Abs(pivot) <= bound
    ensures Conditioned(bound, n)
  {
    assert (bound - Abs(pivot)) * (n + 1) as real >= 0.0;
  }

  // ---- What an inverse gives ---------------------------------------------------------------

  /** r*(a*v) == v. */
  lemma Recovers(r: Matrix, a: Matrix, v: Vec, i: int)
    requires IsInverse(r, a) && |v| == |a| && 0 <= i < |v|
    ensures v[i] == Sum(|v|, NestedTerm(r, a, v, i))
  {
    ApplyProduct(r, a, v, i);
    hide NestedTerm, Prod;
    forall j | 0 <= j < |v| ensures ProductTerm(r, a, v, i)(j) == Delta(i, j) * Get(v, j) {
      assert Prod(|a|, r, a, i, j) == Delta(i, j);
    }
    SumSingle(|v|, ProductTerm(r, a, v, i), i);
  }

  /** So an invertible matrix sends only one vector to a given image: a*v == w gives v == r*w. */
  lemma Solves(r: Matrix, a: Matrix, v: Vec, w: Vec, i: int)
    requires IsInverse(r, a) && |v| == |w| == |a| && 0 <= i < |v|
    requires forall k :: 0 <= k < |a| ==> Apply(a, v, k) == w[k]
    ensures v[i] == Apply(r, w, i)
  {
    hide IsInverse;
    Recovers(r, a, v, i);
    SumCong(|v|, NestedTerm(r, a, v, i), ApplyTerm(r, w, i));
  }

  /** mat_inverse raises on every exactly singular matrix: an inverse leaves no null vector. */
  lemma InverseExcludesNull(r: Matrix, a: Matrix, v: Vec)
    requires IsInverse(r, a) && |v| == |a| && forall k :: 0 <= k < |a| ==> Apply(a, v, k) == 0.0
    ensures forall i :: 0 <= i < |v| ==> v[i] == 0.0
  {
    hide IsInverse, Apply;
    var zero := seq(|v|, k => 0.0);
    forall i | 0 <= i < |v| ensures v[i] == 0.0 {
      Solves(r, a, v, zero, i);
      ApplyZero(r, zero, i);
    }
  }

  lemma ApplyZero(r: Matrix, zero: Vec, i: int)
    requires forall k :: 0 <= k < |zero| ==> zero[k] == 0.0
    ensures Apply(r, zero, i) == 0.0
  {
    SumConst(|zero|, ApplyTerm(r, zero, i), 0.0);
  }

  lemma InverseUnique(r: Matrix, s: Matrix, a: Matrix)
    requires IsInverse(r, a) && IsInverse(s, a)
    ensures r == s
  {
    forall i, j | 0 <= i < |a| && 0 <= j < |a| ensures r[i][j] == s[i][j] { InverseUniqueAt(r, s, a, i, j); }
    forall i | 0 <= i < |a| ensures r[i] == s[i] {}
  }

  lemma InverseUniqueAt(r: Matrix, s: Matrix, a: Matrix, i: int, j: int)
    requires IsInverse(r, a) && IsInverse(s, a) && 0 <= i < |a| && 0 <= j < |a|
    ensures r[i][j] == s[i][j]
  {
    var n := |a|;
    var v, e := seq(n, k => At(s, k, j)), seq(n, k => Delta(k, j));
    forall k | 0 <= k < n ensures Apply(a, v, k) == e[k] {
      assert Prod(n, a, s, k, j) == Delta(k, j);
      SumCong(n, ApplyTerm(a, v, k), ProdTerm(a, s, k, j));
    }
    Solves(r, a, v, e, i);
    SumSingle(n, ApplyTerm(r, e, i), j);
  }

  // ---- mat_inverse -------------------------------------------------------------------------

  /** Index of the first entry of largest magnitude in column col, from row col on. */
  method PickPivot(m: array<Vec>, col: nat) returns (piv: nat)
    requires col < m.Length && forall i :: 0 <= i < m.Length ==> |m[i]| == 2 * m.Length
    ensures col <= piv < m.Length
    ensures forall r :: col <= r < m.Length ==> Abs(m[r][col]) <= Abs(m[piv][col])
    ensures forall r :: col <= r < piv ==> Abs(m[r][col]) < Abs(m[piv][col])
  {
    piv := col;
    for r := col + 1 to m.Length
      invariant col <= piv < r
      invariant forall k :: col <= k < r ==> Abs(m[k][col]) <= Abs(m[piv][col])
      invariant forall k :: col <= k < piv ==> Abs(m[k][col]) < Abs(m[piv][col])
    {
      if Abs(m[r][col]) > Abs(m[piv][col]) { piv := r; }
    }
  }

  lemma PivotEvidence(a: Matrix, g: Matrix, m: Matrix, s: Matrix, c: seq<int>, col: int, pivot: real)
    requires Progress(a, g, m, s, c, col) && 0 <= col < |a|
    requires forall r :: col <= r < |m| ==> Abs(At(m, r, col)) <= Abs(pivot)
    ensures Abs(pivot) < 0.000000000001 ==> exists v :: NearNull(a, v)
    ensures DominatesIdentity(a) ==> Conditioned(pivot, |a|)
  {
    hide Abs, Conditioned, Apply, Undoes, UnitColumns, Untouched, RowsOf, Augmented, Obstruction, DominatesIdentity;
    var v := Obstruction(m, col);
    forall p | 0 <= p < |a| ensures Abs(Apply(a, v, p)) <= Abs(pivot) {
      ObstructionImage(s, m, g, a, c, col, Abs(pivot), p);
    }
    if Abs(pivot) < PIVOT_FLOOR { assert NearNull(a, v); }
    if DominatesIdentity(a) { DominanceSeparates(a, v, pivot); }
  }

  /** The inner loop: subtract the pivot row from every other row with a non-zero entry in the column. */
  method ClearColumn(m: array<Vec>, col: nat, ghost a: Matrix, ghost g: Matrix, ghost s: Matrix, ghost c: seq<int>)
    returns (ghost s': Matrix)
    requires Clearing(a, g, m[..], s, c, col, 0)
    modifies m
    ensures Progress(a, g, m[..], s', c, col + 1)
  {
    hide RowsOf, RowOf, Undoes, UnitColumns, Untouched, Augmented, SubtractRow, Square;
    s' := s;
    for k := 0 to m.Length
      invariant Clearing(a, g, m[..], s', c, col, k)
    {
      WorkingShape(s', m[..], g);
      if k != col && m[k][col] != 0.0 {
        ghost var before := m[..];
        var f, rk, rc := m[k][col], m[k], m[col];
        m[k] := SubtractRow(rk, f, rc);
        EliminateStep(a, g, before, s', c, col, k, k + 1, m[..]);
        s' :| Clearing(a, g, m[..], s', c, col, k + 1);
      }
    }
    ColumnDone(a, g, m[..], s', c, col);
  }

  /** Swap the pivot row up and scale it to a leading 1. */
  method RaisePivot(m: array<Vec>, col: nat, piv: nat, ghost a: Matrix, ghost g: Matrix, ghost s: Matrix,
      ghost c: seq<int>)
    returns (ghost s': Matrix, ghost c': seq<int>)
    requires Progress(a, g, m[..], s, c, col) && col <= piv < m.Length && At(m[..], piv, col) != 0.0
    modifies m
    ensures Clearing(a, g, m[..], s', c', col, 0)
  {
    hide RowsOf, RowOf, Undoes, UnitColumns, Untouched, Augmented, ScaleRow, Square;
    WorkingShape(s, m[..], g);
    ghost var before := m[..];
    m[col], m[piv] := m[piv], m[col];
    SwapStep(a, g, before, s, c, col, piv, m[..]);
    s', c' :| Progress(a, g, m[..], s', c', col);
    before := m[..];
    var diag, row := m[col][col], m[col];
    m[col] := ScaleRow(row, diag);
    ScaleStep(a, g, before, s', c', col, m[..]);
    s' :| Clearing(a, g, m[..], s', c', col, 0);
  }

  /** One column of the loop: pick the pivot, swap it up, scale its row, clear the column elsewhere. */
  method ReduceColumn(m: array<Vec>, col: nat, ghost a: Matrix, ghost g: Matrix, ghost s: Matrix, ghost c: seq<int>)
    returns (ok: bool, ghost pivot: real, ghost s': Matrix, ghost c': seq<int>)
    requires Progress(a, g, m[..], s, c, col) && col < |a|
    modifies m
    ensures ok ==> Progress(a, g, m[..], s', c', col + 1) && Abs(pivot) >= 0.000000000001
    ensures DominatesIdentity(a) ==> Conditioned(pivot, |a|)
    ensures !ok ==> exists v :: NearNull(a, v)
    ensures !ok ==> Abs(pivot) < 0.000000000001
  {
    hide RowsOf, RowOf, Undoes, UnitColumns, Untouched, Augmented, ScaleRow, SubtractRow, Conditioned, NearNull,
      DominatesIdentity, Abs, Obstruction, Square;
    WorkingShape(s, m[..], g);
    s', c' := s, c;
    var piv := PickPivot(m, col);
    pivot := m[piv][col];
    PivotEvidence(a, g, m[..], s, c, col, pivot);
    if Abs(m[piv][col]) < PIVOT_FLOOR {
      return false, pivot, s', c';
    }
    s', c' := RaisePivot(m, col, piv, a, g, s, c);
    s' := ClearColumn(m, col, a, g, s', c');
    ok := true;
  }

  method MatInverse(a: Matrix) returns (r: Inverse, ghost pivots: Vec)
    requires Square(a)
    ensures r.Inverted? ==> IsInverse(r.value, a) && |pivots| == |a|
    ensures r.Singular? ==> exists v :: NearNull(a, v)
    ensures forall i :: 0 <= i < |pivots| ==> Abs(pivots[i]) >= 0.000000000001
    ensures DominatesIdentity(a) ==> forall i :: 0 <= i < |pivots| ==> Conditioned(pivots[i], |a|)
    ensures DominatesIdentity(a) && !Conditioned(PIVOT_FLOOR, |a|) ==> r.Inverted?
  {
    hide RowsOf, RowOf, Undoes, UnitColumns, Untouched, Conditioned, NearNull, DominatesIdentity, IsInverse;
    var n := |a|;
    pivots := [];
    var m := new Vec[n];
    for i := 0 to n
      invariant forall k :: 0 <= k < i ==> m[k] == a[k] + seq(n, j => Delta(k, j))
    {
      m[i] := a[i] + seq(n, j => Delta(i, j));
    }
    ghost var g := m[..];
    ghost var s := seq(n, i => seq(n, j => Delta(i, j)));
    ghost var c := seq(n, i => i);
    Start(a, g, s, c);
    for col := 0 to n
      invariant Progress(a, g, m[..], s, c, col)
      invariant |pivots| == col && forall i :: 0 <= i < col ==> Abs(pivots[i]) >= PIVOT_FLOOR
      invariant DominatesIdentity(a) ==> forall i :: 0 <= i < col ==> Conditioned(pivots[i], n)
    {
      ghost var pivot;
      var ok;
      ok, pivot, s, c := ReduceColumn(m, col, a, g, s, c);
      if !ok {
        if DominatesIdentity(a) { Weaken(pivot, PIVOT_FLOOR, n); }
        return Singular, pivots;
      }
      pivots := pivots + [pivot];
    }
    WorkingShape(s, m[..], g);
    var value := seq(n, i requires 0 <= i < m.Length && |m[i]| == 2 * n reads m => m[i][n..]);
    Finish(s, m[..], g, a, c, value);
    r := Inverted(value);
  }
}
