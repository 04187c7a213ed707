/** The discounted ridge posteriors of the linear policies, over unbounded observation histories. */
module Posterior {
  import opened Sums
  import opened MatrixInverse

  datatype Task = Chat | Code | Extract | Summarize
  datatype Complexity = Simple | Complex
  datatype Ctx = Ctx(task: Task, complexity: Complexity)
  datatype Obs = Obs(ctx: Ctx, arm: nat, reward: real)

  const N_ARMS: nat := 5
  const DIM: nat := 8
  const GAMMA: real := 0.99

  function TaskIndex(t: Task): (i: nat)
    ensures i < 4
  {
    match t case Chat => 0 case Code => 1 case Extract => 2 case Summarize => 3
  }

  function ComplexityIndex(c: Complexity): (i: nat)
    ensures i < 2
  {
    match c case Simple => 0 case Complex => 1
  }

  /** Task one-hot, complexity one-hot, two intercepts. */
  function Features(ctx: Ctx): (x: Vec)
    ensures |x| == DIM && forall i :: 0 <= i < DIM ==> x[i] == 0.0 || x[i] == 1.0
  {
    seq(4, i => Delta(i, TaskIndex(ctx.task))) + seq(2, i => Delta(i, ComplexityIndex(ctx.complexity))) + [1.0, 1.0]
  }

  /** Slot by slot: chat, code, extract, summarize; simple, complex; and two intercepts. */
  lemma FeaturesAre(ctx: Ctx)
    ensures var x, t, c := Features(ctx), ctx.task, ctx.complexity;
      && |x| == 8 && x[6] == x[7] == 1.0
      && (x[0] == 1.0 <==> t.Chat?) && (x[1] == 1.0 <==> t.Code?)
      && (x[2] == 1.0 <==> t.Extract?) && (x[3] == 1.0 <==> t.Summarize?)
      && (x[4] == 1.0 <==> c.Simple?) && (x[5] == 1.0 <==> c.Complex?)
      && forall i :: 0 <= i < 6 ==> x[i] == 0.0 || x[i] == 1.0
  {
  }

  function Identity(n: nat): (m: Matrix)
    ensures Shape(m, n, n) && forall i, j :: 0 <= i < n && 0 <= j < n ==> m[i][j] == Delta(i, j)
  {
    seq(n, i => seq(n, j => Delta(i, j)))
  }

  /** One discounted update with the ridge renewed on the diagonal. */
  function RenewEntry(g: real, was: real, i: int, j: int, x: Vec): real {
    g * was + (1.0 - g) * Delta(i, j) + Get(x, i) * Get(x, j)
  }

  function Renew(a: Matrix, x: Vec, g: real): (m: Matrix)
    ensures |m| == |a| && forall i :: 0 <= i < |a| ==> |m[i]| == |a[i]|
    ensures forall i, j :: 0 <= i < |a| && 0 <= j < |a[i]| ==> m[i][j] == RenewEntry(g, a[i][j], i, j, x)
  {
    seq(|a|, i requires 0 <= i < |a| =>
      seq(|a[i]|, j requires 0 <= j < |a[i]| => RenewEntry(g, a[i][j], i, j, x)))
  }

  function Reweigh(b: Vec, x: Vec, reward: real, g: real): (w: Vec)
    ensures |w| == |b| && forall i :: 0 <= i < |b| ==> w[i] == g * b[i] + Get(x, i) * reward
  {
    seq(|b|, i requires 0 <= i < |b| => g * b[i] + Get(x, i) * reward)
  }

  /** What a history has taught about one arm. */
  ghost function PosteriorOf(h: seq<Obs>, arm: nat): (m: Matrix)
    ensures Shape(m, DIM, DIM)
  {
    if h == [] then Identity(DIM)
    else
      var o, before := h[|h| - 1], PosteriorOf(h[..|h| - 1], arm);
      if o.arm == arm then Renew(before, Features(o.ctx), GAMMA) else before
  }

  ghost function WeightsOf(h: seq<Obs>, arm: nat): (b: Vec)
    ensures |b| == DIM
  {
    if h == [] then seq(DIM, i => 0.0)
    else
      var o, before := h[|h| - 1], WeightsOf(h[..|h| - 1], arm);
      if o.arm == arm then Reweigh(before, Features(o.ctx), o.reward, GAMMA) else before
  }

  ghost predicate Symmetric(a: Matrix) {
    Square(a) && forall i, j :: 0 <= i < |a| && 0 <= j < |a| ==> a[i][j] == a[j][i]
  }

  // ---- One update ---------------------------------------------------------------------------

  ghost function DeltaTerm(v: Vec, i: int): int -> real { j => Delta(i, j) * Get(v, j) }

  lemma ApplyIdentity(n: nat, v: Vec, i: int)
    requires |v| == n && 0 <= i < n
    ensures Apply(Identity(n), v, i) == v[i]
  {
    SumSingle(n, ApplyTerm(Identity(n), v, i), i);
  }

  lemma SplitTerm(g: real, e: real, d: real, x: real, y: real, v: real)
    ensures (g * e + (1.0 - g) * d + x * y) * v == g * (e * v) + (1.0 - g) * (d * v) + x * (y * v)
  {
    assert (g * e) * v == g * (e * v) && ((1.0 - g) * d) * v == (1.0 - g) * (d * v) && (x * y) * v == x * (y * v);
  }

  lemma RenewTerm(a: Matrix, x: Vec, g: real, v: Vec, i: int, j: int)
    requires Square(a) && 0 <= i < |a| && 0 <= j < |a|
    ensures ApplyTerm(Renew(a, x, g), v, i)(j)
      == g * ApplyTerm(a, v, i)(j) + (1.0 - g) * DeltaTerm(v, i)(j) + Get(x, i) * DotTerm(x, v)(j)
  {
    SplitTerm(g, a[i][j], Delta(i, j), Get(x, i), Get(x, j), Get(v, j));
  }

  lemma {:induction false} SumLinear3(n: nat, h: int -> real, a: real, f: int -> real, b: real, g: int -> real,
      c: real, k: int -> real)
    requires forall i :: 0 <= i < n ==> h(i) == a * f(i) + b * g(i) + c * k(i)
    ensures Sum(n, h) == a * Sum(n, f) + b * Sum(n, g) + c * Sum(n, k)
  {
    if n > 0 {
      var i := n - 1;
      SumLinear3(i, h, a, f, b, g, c, k);
      var s, t, s' := a * Sum(i, f) + b * Sum(i, g), a * f(i) + b * g(i), a * Sum(n, f) + b * Sum(n, g);
      LinearStep(a, Sum(i, f), f(i), Sum(n, f), b, Sum(i, g), g(i), Sum(n, g), s, t, s + t);
      LinearStep(1.0, s, t, s', c, Sum(i, k), k(i), Sum(n, k), Sum(i, h), h(i), Sum(n, h));
    }
  }

  /** (renewed a)*v == g*(a*v) + (1-g)*v + (x.v)*x. */
  lemma RenewApply(a: Matrix, x: Vec, g: real, v: Vec, i: int)
    requires Square(a) && |v| == |a| && 0 <= i < |a|
    ensures Apply(Renew(a, x, g), v, i) == g * Apply(a, v, i) + (1.0 - g) * v[i] + Get(x, i) * Dot(x, v)
  {
    hide Sum, ApplyTerm, DotTerm, DeltaTerm, Renew;
    var n := |a|;
    forall j | 0 <= j < n
      ensures ApplyTerm(Renew(a, x, g), v, i)(j)
        == g * ApplyTerm(a, v, i)(j) + (1.0 - g) * DeltaTerm(v, i)(j) + Get(x, i) * DotTerm(x, v)(j)
    {
      RenewTerm(a, x, g, v, i, j);
    }
    SumLinear3(n, ApplyTerm(Renew(a, x, g), v, i), g, ApplyTerm(a, v, i), 1.0 - g, DeltaTerm(v, i), Get(x, i),
      DotTerm(x, v));
    DeltaSum(v, i);
  }

  lemma DeltaSum(v: Vec, i: int)
    requires 0 <= i < |v|
    ensures Sum(|v|, DeltaTerm(v, i)) == v[i]
  {
    SumSingle(|v|, DeltaTerm(v, i), i);
  }

  /** The same for two vectors w, v: w.(a v), bilinear. */
  ghost function FormTerm(w: Vec, a: Matrix, v: Vec): int -> real { i => Get(w, i) * Apply(a, v, i) }

  ghost function Form(w: Vec, a: Matrix, v: Vec): real { Sum(|v|, FormTerm(w, a, v)) }

  lemma FormIsQuad(a: Matrix, v: Vec)
    ensures Form(v, a, v) == Quad(a, v)
  {
    SumCong(|v|, FormTerm(v, a, v), QuadTerm(a, v));
  }

  lemma SpreadTerm(w: real, g: real, e: real, v: real, x: real, d: real)
    ensures w * (g * e + (1.0 - g) * v + x * d) == g * (w * e) + (1.0 - g) * (w * v) + d * (w * x)
  {
    assert w * (g * e) == g * (w * e) && w * ((1.0 - g) * v) == (1.0 - g) * (w * v) && w * (x * d) == d * (w * x);
  }

  /** The form of an update: discounted form, renewed norm, squared prediction. */
  lemma RenewForm(a: Matrix, x: Vec, g: real, v: Vec)
    requires Square(a) && |v| == |x| == |a|
    ensures Quad(Renew(a, x, g), v) == g * Quad(a, v) + (1.0 - g) * Dot(v, v) + Dot(x, v) * Dot(x, v)
  {
    hide Sum, Apply, QuadTerm, DotTerm, Renew;
    var m := Renew(a, x, g);
    forall i | 0 <= i < |a|
      ensures QuadTerm(m, v)(i) == g * QuadTerm(a, v)(i) + (1.0 - g) * DotTerm(v, v)(i) + Dot(x, v) * DotTerm(x, v)(i)
    {
      RenewFormTerm(a, x, g, v, i);
    }
    SumLinear3(|a|, QuadTerm(m, v), g, QuadTerm(a, v), 1.0 - g, DotTerm(v, v), Dot(x, v), DotTerm(x, v));
  }

  lemma RenewFormTerm(a: Matrix, x: Vec, g: real, v: Vec, i: int)
    requires Square(a) && |v| == |x| == |a| && 0 <= i < |a|
    ensures QuadTerm(Renew(a, x, g), v)(i)
      == g * QuadTerm(a, v)(i) + (1.0 - g) * DotTerm(v, v)(i) + Dot(x, v) * DotTerm(x, v)(i)
  {
    hide Sum, Apply, Dot, Renew;
    RenewApply(a, x, g, v, i);
    SpreadTerm(v[i], g, Apply(a, v, i), v[i], x[i], Dot(x, v));
  }

  lemma RenewDominates(a: Matrix, x: Vec, g: real)
    requires DominatesIdentity(a) && |x| == |a| && 0.0 <= g <= 1.0
    ensures DominatesIdentity(Renew(a, x, g))
  {
    hide Quad, Dot, Renew;
    var m := Renew(a, x, g);
    forall v: Vec | |v| == |m| ensures Quad(m, v) >= Dot(v, v) {
      assert Quad(a, v) >= Dot(v, v);
      RenewForm(a, x, g, v);
      KeepsAbove(g, Quad(a, v), Dot(v, v), Dot(x, v));
    }
  }

  lemma KeepsAbove(g: real, q: real, d: real, p: real)
    requires q >= d && 0.0 <= g <= 1.0
    ensures g * q + (1.0 - g) * d + p * p >= d
  {
    hide Product;
    var excess, square := Product(g, q - d), Product(p, p);
    assert g * q + (1.0 - g) * d == d + g * (q - d);
  }

  lemma RenewSymmetric(a: Matrix, x: Vec, g: real)
    requires Symmetric(a) && |x| == |a|
    ensures Symmetric(Renew(a, x, g))
  {
    forall i, j | 0 <= i < |a| && 0 <= j < |a| ensures Renew(a, x, g)[i][j] == Renew(a, x, g)[j][i] {
      assert a[i][j] == a[j][i] && Get(x, i) * Get(x, j) == Get(x, j) * Get(x, i);
    }
  }

  // ---- Every history ------------------------------------------------------------------------

  lemma IdentityDominates(n: nat)
    ensures DominatesIdentity(Identity(n))
  {
    forall v: Vec | |v| == n ensures Quad(Identity(n), v) >= Dot(v, v) {
      forall i | 0 <= i < n ensures QuadTerm(Identity(n), v)(i) == DotTerm(v, v)(i) { ApplyIdentity(n, v, i); }
      SumCong(n, QuadTerm(Identity(n), v), DotTerm(v, v));
    }
  }

  /** Whatever was observed, every posterior is symmetric and stays above the identity. */
  lemma {:induction false} PosteriorStaysAboveIdentity(h: seq<Obs>, arm: nat)
    ensures Symmetric(PosteriorOf(h, arm)) && DominatesIdentity(PosteriorOf(h, arm))
  {
    hide DominatesIdentity, Symmetric;
    if h == [] {
      IdentityDominates(DIM);
      IdentitySymmetric(DIM);
    } else {
      var o, before := h[|h| - 1], PosteriorOf(h[..|h| - 1], arm);
      PosteriorStaysAboveIdentity(h[..|h| - 1], arm);
      RenewDominates(before, Features(o.ctx), GAMMA);
      RenewSymmetric(before, Features(o.ctx), GAMMA);
    }
  }

  lemma IdentitySymmetric(n: nat)
    ensures Symmetric(Identity(n))
  {
  }

  /** The two intercept slots are always equal, so their difference is never seen by a label. */
  function BlindDirection(): (u: Vec)
    ensures |u| == DIM
  {
    [0.0, 0.0, 0.0, 0.0, 0.0, 0.0, 1.0, -1.0]
  }

  lemma FeaturesMissBlindDirection(ctx: Ctx)
    ensures Dot(Features(ctx), BlindDirection()) == 0.0
  {
    var x, u := Features(ctx), BlindDirection();
    var f, z := DotTerm(x, u), (i: int) => 0.0;
    assert x[6] == 1.0 && x[7] == 1.0;
    SumTrade(DIM, f, z, 6, 7);
    SumConst(DIM, z, 0.0);
  }

  /** Along it the renewal keeps the eigenvalue at exactly 1 for ever: the bound above is tight. */
  lemma {:induction false} BlindEigenvalueIsOne(h: seq<Obs>, arm: nat, i: int)
    requires 0 <= i < DIM
    ensures Apply(PosteriorOf(h, arm), BlindDirection(), i) == BlindDirection()[i]
  {
    hide Apply, BlindDirection, Features, Dot;
    if h == [] {
      ApplyIdentity(DIM, BlindDirection(), i);
    } else {
      var o, before := h[|h| - 1], PosteriorOf(h[..|h| - 1], arm);
      BlindEigenvalueIsOne(h[..|h| - 1], arm, i);
      RenewApply(before, Features(o.ctx), GAMMA, BlindDirection(), i);
      FeaturesMissBlindDirection(o.ctx);
    }
  }

  // ---- The posterior mean is the discounted ridge regression --------------------------------

  /** Discounted squared error of w on the arm's labels, plus a ridge whose weight is exactly 1. */
  ghost function Loss(h: seq<Obs>, arm: nat, w: Vec): real {
    Dot(w, w) + Error(h, arm, w)
  }

  ghost function Error(h: seq<Obs>, arm: nat, w: Vec): real {
    if h == [] then 0.0
    else
      var o, before := h[|h| - 1], Error(h[..|h| - 1], arm, w);
      if o.arm == arm then
        GAMMA * before + (Dot(Features(o.ctx), w) - o.reward) * (Dot(Features(o.ctx), w) - o.reward)
      else before
  }

  /** The part of the error no w can change. */
  ghost function Offset(h: seq<Obs>, arm: nat): real {
    if h == [] then 0.0
    else
      var o, before := h[|h| - 1], Offset(h[..|h| - 1], arm);
      if o.arm == arm then GAMMA * before + o.reward * o.reward else before
  }

  lemma ReweighDot(b: Vec, x: Vec, r: real, g: real, w: Vec)
    requires |b| == |x| == |w|
    ensures Dot(Reweigh(b, x, r, g), w) == g * Dot(b, w) + r * Dot(x, w)
  {
    hide Sum;
    var c := Reweigh(b, x, r, g);
    forall i | 0 <= i < |w| ensures DotTerm(c, w)(i) == g * DotTerm(b, w)(i) + r * DotTerm(x, w)(i) {
      Distribute(g, b[i], r, x[i], w[i]);
    }
    SumLinear(|w|, DotTerm(c, w), g, DotTerm(b, w), r, DotTerm(x, w));
  }

  lemma LossStep(g: real, q: real, bw: real, n: real, e: real, s: real, p: real, r: real)
    requires n + e == q - 2.0 * bw + s
    ensures n + (g * e + (p - r) * (p - r))
      == (g * q + (1.0 - g) * n + p * p) - 2.0 * (g * bw + r * p) + (g * s + r * r)
  {
    assert g * (n + e) == g * (q - 2.0 * bw + s);
    assert (p - r) * (p - r) == p * p - 2.0 * (r * p) + r * r;
  }

  /** Completing the square: the loss is the form of the posterior matrix and weights. */
  lemma {:induction false} LossIsForm(h: seq<Obs>, arm: nat, w: Vec)
    requires |w| == DIM
    ensures Loss(h, arm, w) == Quad(PosteriorOf(h, arm), w) - 2.0 * Dot(WeightsOf(h, arm), w) + Offset(h, arm)
  {
    hide Quad, Dot, Features, Renew, Reweigh, Identity;
    if h == [] {
      BaseForm(w);
    } else {
      var o := h[|h| - 1];
      var h', x := h[..|h| - 1], Features(o.ctx);
      LossIsForm(h', arm, w);
      if o.arm == arm {
        RenewForm(PosteriorOf(h', arm), x, GAMMA, w);
        ReweighDot(WeightsOf(h', arm), x, o.reward, GAMMA, w);
        LossStep(GAMMA, Quad(PosteriorOf(h', arm), w), Dot(WeightsOf(h', arm), w), Dot(w, w),
                 Error(h', arm, w), Offset(h', arm), Dot(x, w), o.reward);
      }
    }
  }

  lemma BaseForm(w: Vec)
    requires |w| == DIM
    ensures Quad(Identity(DIM), w) == Dot(w, w) && Dot(WeightsOf([], 0), w) == 0.0
    ensures forall arm: nat :: WeightsOf([], arm) == WeightsOf([], 0)
  {
    hide Sum, Apply;
    forall i | 0 <= i < DIM ensures QuadTerm(Identity(DIM), w)(i) == DotTerm(w, w)(i) { ApplyIdentity(DIM, w, i); }
    SumCong(DIM, QuadTerm(Identity(DIM), w), DotTerm(w, w));
    SumConst(DIM, DotTerm(WeightsOf([], 0), w), 0.0);
  }

  /** Symmetry of the form of a symmetric matrix. */
  lemma FormSymmetric(w: Vec, a: Matrix, v: Vec)
    requires Symmetric(a) && |w| == |v| == |a|
    ensures Form(w, a, v) == Form(v, a, w)
  {
    hide Sum, Symmetric;
    var n := |a|;
    forall i | 0 <= i < n ensures FormTerm(w, a, v)(i) == Sum(n, CrossTerm(w, a, v)(i)) {
      SumScale(n, CrossTerm(w, a, v)(i), Get(w, i), ApplyTerm(a, v, i));
    }
    forall j | 0 <= j < n ensures FormTerm(v, a, w)(j) == Sum(n, CrossTerm(v, a, w)(j)) {
      SumScale(n, CrossTerm(v, a, w)(j), Get(v, j), ApplyTerm(a, w, j));
    }
    forall i, j | 0 <= i < n && 0 <= j < n ensures CrossTerm(v, a, w)(j)(i) == CrossTerm(w, a, v)(i)(j) {
      CrossFlip(w, a, v, i, j);
    }
    hide CrossTerm, FormTerm;
    SumSwap(n, n, CrossTerm(w, a, v), CrossTerm(v, a, w), FormTerm(w, a, v), FormTerm(v, a, w));
  }

  ghost function CrossTerm(w: Vec, a: Matrix, v: Vec): int -> int -> real {
    i => j => Get(w, i) * (At(a, i, j) * Get(v, j))
  }

  lemma CrossFlip(w: Vec, a: Matrix, v: Vec, i: int, j: int)
    requires Symmetric(a) && 0 <= i < |a| && 0 <= j < |a|
    ensures CrossTerm(v, a, w)(j)(i) == CrossTerm(w, a, v)(i)(j)
  {
    assert At(a, i, j) == At(a, j, i);
    var x, e, y := Get(w, i), At(a, i, j), Get(v, j);
    assert y * (e * x) == x * (e * y);
  }

  ghost function Minus(u: Vec, v: Vec): (d: Vec)
    requires |u| == |v|
    ensures |d| == |u|
  {
    seq(|u|, i requires 0 <= i < |u| => u[i] - v[i])
  }

  lemma ApplyMinusTerm(a: Matrix, u: Vec, v: Vec, i: int, j: int)
    requires |u| == |v| && 0 <= j < |u|
    ensures ApplyTerm(a, Minus(u, v), i)(j) == 1.0 * ApplyTerm(a, u, i)(j) + (-1.0) * ApplyTerm(a, v, i)(j)
  {
    assert Minus(u, v)[j] == u[j] - v[j];
  }

  lemma ApplyMinus(a: Matrix, u: Vec, v: Vec, i: int)
    requires |u| == |v|
    ensures Apply(a, Minus(u, v), i) == Apply(a, u, i) - Apply(a, v, i)
  {
    hide Sum;
    var d := Minus(u, v);
    forall j | 0 <= j < |u|
      ensures ApplyTerm(a, d, i)(j) == 1.0 * ApplyTerm(a, u, i)(j) + (-1.0) * ApplyTerm(a, v, i)(j)
    {
      ApplyMinusTerm(a, u, v, i, j);
    }
    SumLinear(|u|, ApplyTerm(a, d, i), 1.0, ApplyTerm(a, u, i), -1.0, ApplyTerm(a, v, i));
  }

  lemma ExpandTerm(u: real, v: real, p: real, q: real)
    ensures (u - v) * (p - q) == 1.0 * (u * p) + (-1.0) * (u * q) + (-1.0) * (v * p) + v * q
  {
  }

  lemma QuadOfDifferenceTerm(a: Matrix, u: Vec, v: Vec, i: int)
    requires |u| == |v| == |a| && 0 <= i < |a|
    ensures QuadTerm(a, Minus(u, v))(i)
      == 1.0 * QuadTerm(a, u)(i) + (-1.0) * FormTerm(u, a, v)(i) + (-1.0) * FormTerm(v, a, u)(i) + QuadTerm(a, v)(i)
  {
    hide Apply;
    ApplyMinus(a, u, v, i);
    ExpandTerm(u[i], v[i], Apply(a, u, i), Apply(a, v, i));
  }

  lemma QuadOfDifference(a: Matrix, u: Vec, v: Vec)
    requires Symmetric(a) && |u| == |v| == |a|
    ensures Quad(a, Minus(u, v)) == Quad(a, u) - 2.0 * Form(u, a, v) + Quad(a, v)
  {
    hide Sum, Symmetric, Apply;
    var n, d := |a|, Minus(u, v);
    var rest := i => 1.0 * QuadTerm(a, u)(i) + (-1.0) * FormTerm(u, a, v)(i) + (-1.0) * FormTerm(v, a, u)(i);
    hide QuadTerm, FormTerm;
    forall i | 0 <= i < n ensures QuadTerm(a, d)(i) == 1.0 * rest(i) + 1.0 * QuadTerm(a, v)(i) {
      QuadOfDifferenceTerm(a, u, v, i);
    }
    SumLinear(n, QuadTerm(a, d), 1.0, rest, 1.0, QuadTerm(a, v));
    SumLinear3(n, rest, 1.0, QuadTerm(a, u), -1.0, FormTerm(u, a, v), -1.0, FormTerm(v, a, u));
    FormSymmetric(u, a, v);
  }

  /** theta = inverse * b, as both policies compute it. */
  function Theta(r: Matrix, b: Vec): (t: Vec)
    ensures |t| == |b|
  {
    seq(|b|, i => Apply(r, b, i))
  }

  /** The normal equations: a * theta == b. */
  lemma ThetaSolves(r: Matrix, a: Matrix, b: Vec, i: int)
    requires IsInverse(r, a) && |b| == |a| && 0 <= i < |a|
    ensures Apply(a, Theta(r, b), i) == b[i]
  {
    hide IsInverse, Apply;
    InverseMirrored(r, a);
    Recovers(a, r, b, i);
    hide NestedTerm;
    NestedIsApply(r, a, b, i);
  }

  lemma InverseMirrored(r: Matrix, a: Matrix)
    requires IsInverse(r, a)
    ensures IsInverse(a, r) && |r| == |a|
  {
  }

  lemma NestedIsApply(r: Matrix, a: Matrix, b: Vec, i: int)
    ensures Sum(|b|, NestedTerm(a, r, b, i)) == Apply(a, Theta(r, b), i)
  {
    var t := Theta(r, b);
    hide Apply;
    forall j | 0 <= j < |b| ensures NestedTerm(a, r, b, i)(j) == ApplyTerm(a, t, i)(j) {
      assert Get(t, j) == Apply(r, b, j);
    }
    SumCong(|b|, NestedTerm(a, r, b, i), ApplyTerm(a, t, i));
    ApplyUnfold(a, t, i);
  }

  lemma ApplyUnfold(a: Matrix, v: Vec, i: int)
    ensures Apply(a, v, i) == Sum(|v|, ApplyTerm(a, v, i))
  {
  }

  lemma FormAtSolution(u: Vec, a: Matrix, t: Vec, b: Vec)
    requires |u| == |t| == |b| == |a| && forall i :: 0 <= i < |a| ==> Apply(a, t, i) == b[i]
    ensures Form(u, a, t) == Dot(b, u)
  {
    hide Apply;
    SumCong(|a|, FormTerm(u, a, t), DotTerm(b, u));
  }

  lemma DotNonNegative(v: Vec)
    ensures Dot(v, v) >= 0.0
  {
    var z := (i: int) => 0.0;
    SumConst(|v|, z, 0.0);
    SumLe(|v|, z, DotTerm(v, v));
  }

  /** After any history no weight vector fits the arm's discounted labels better than the policy's theta. */
  lemma ThetaMinimisesLoss(h: seq<Obs>, arm: nat, r: Matrix, w: Vec)
    requires IsInverse(r, PosteriorOf(h, arm)) && |w| == DIM
    ensures Loss(h, arm, w) >= Loss(h, arm, Theta(r, WeightsOf(h, arm)))
  {
    hide IsInverse, Quad, Dot, Form, Symmetric, Theta, PosteriorOf, WeightsOf, Loss, Apply;
    var a, b := PosteriorOf(h, arm), WeightsOf(h, arm);
    var t := Theta(r, b);
    PosteriorStaysAboveIdentity(h, arm);
    forall i | 0 <= i < DIM ensures Apply(a, t, i) == b[i] { ThetaSolves(r, a, b, i); }
    FormAtSolution(w, a, t, b);
    FormAtSolution(t, a, t, b);
    FormIsQuad(a, t);
    QuadOfDifference(a, w, t);
    LossIsForm(h, arm, w);
    LossIsForm(h, arm, t);
    assert Quad(a, Minus(w, t)) >= Dot(Minus(w, t), Minus(w, t));
    DotNonNegative(Minus(w, t));
  }

  // ---- The policies -------------------------------------------------------------------------

  /** The nested loops of both observe methods: renew a in place, entry by entry. */
  method RenewInPlace(a: Matrix, x: Vec, g: real) returns (m: Matrix)
    requires Square(a) && |x| == |a|
    ensures m == Renew(a, x, g)
  {
    m := a;
    var n := |x|;
    for i := 0 to n
      invariant Shape(m, n, n)
      invariant forall k :: 0 <= k < i ==> m[k] == Renew(a, x, g)[k]
      invariant forall k :: i <= k < n ==> m[k] == a[k]
    {
      for j := 0 to n
        invariant Shape(m, n, n)
        invariant forall k :: 0 <= k < i ==> m[k] == Renew(a, x, g)[k]
        invariant forall k :: i < k < n ==> m[k] == a[k]
        invariant forall l :: 0 <= l < j ==> m[i][l] == Renew(a, x, g)[i][l]
        invariant forall l :: j <= l < n ==> m[i][l] == a[i][l]
      {
        m := m[i := m[i][j := RenewEntry(g, m[i][j], i, j, x)]];
      }
      assert m[i] == Renew(a, x, g)[i];
    }
  }

  lemma PosteriorInvertible(h: seq<Obs>, arm: nat)
    ensures DominatesIdentity(PosteriorOf(h, arm)) && Square(PosteriorOf(h, arm)) && !Conditioned(PIVOT_FLOOR, DIM)
  {
    PosteriorStaysAboveIdentity(h, arm);
  }

  /** Inverting the posterior of any history never raises. */
  method InvertPosterior(ghost h: seq<Obs>, ghost arm: nat, a: Matrix) returns (inverse: Matrix)
    requires a == PosteriorOf(h, arm)
    ensures IsInverse(inverse, a)
  {
    hide IsInverse, DominatesIdentity, Conditioned, PosteriorOf;
    PosteriorInvertible(h, arm);
    var r, _ := MatInverse(a);
    inverse := r.value;
  }

  /** Disjoint LinUCB: the inverse is refreshed on every label and mat_inverse never raises. */
  class LinUcb {
    var a: seq<Matrix>
    var b: seq<Vec>
    var aInv: seq<Matrix>
    var labels: nat
    ghost var history: seq<Obs>

    ghost predicate Valid()
      reads this
    {
      && |a| == |b| == |aInv| == N_ARMS && labels == |history|
      && forall arm :: 0 <= arm < N_ARMS ==>
        && a[arm] == PosteriorOf(history, arm) && b[arm] == WeightsOf(history, arm)
        && IsInverse(aInv[arm], a[arm])
    }

    constructor ()
      ensures Valid() && history == []
    {
      hide IsInverse, DominatesIdentity, Conditioned, Identity;
      var eye := Identity(DIM);
      var inverse := InvertPosterior([], 0, eye);
      a, b, aInv := seq(N_ARMS, i => eye), seq(N_ARMS, i => seq(DIM, j => 0.0)), seq(N_ARMS, i => inverse);
      labels, history := 0, [];
    }

    method Observe(ctx: Ctx, arm: nat, reward: real)
      requires Valid() && arm < N_ARMS
      modifies this
      ensures Valid() && history == old(history) + [Obs(ctx, arm, reward)]
    {
      hide IsInverse, DominatesIdentity, Renew, Reweigh, Features, Conditioned;
      var x := Features(ctx);
      history := history + [Obs(ctx, arm, reward)];
      assert history[..|history| - 1] == old(history);
      var m := RenewInPlace(a[arm], x, GAMMA);
      a := a[arm := m];
      b := b[arm := Reweigh(b[arm], x, reward, GAMMA)];
      var inverse := InvertPosterior(history, arm, m);
      aInv := aInv[arm := inverse];
      labels := labels + 1;
    }
  }

  datatype Cached = Stale | Fresh(value: Matrix)

  /** Linear Thompson sampling keeps the same posterior but inverts lazily. */
  class ThompsonLinear {
    var a: seq<Matrix>
    var b: seq<Vec>
    var aInv: seq<Cached>
    var labels: nat
    ghost var history: seq<Obs>

    ghost predicate Valid()
      reads this
    {
      && |a| == |b| == |aInv| == N_ARMS && labels == |history|
      && forall arm :: 0 <= arm < N_ARMS ==>
        && a[arm] == PosteriorOf(history, arm) && b[arm] == WeightsOf(history, arm)
        && (aInv[arm].Fresh? ==> IsInverse(aInv[arm].value, a[arm]))
    }

    constructor ()
      ensures Valid() && history == []
    {
      a, b := seq(N_ARMS, i => Identity(DIM)), seq(N_ARMS, i => seq(DIM, j => 0.0));
      aInv := seq(N_ARMS, i => Stale);
      labels, history := 0, [];
    }

    method Observe(ctx: Ctx, arm: nat, reward: real)
      requires Valid() && arm < N_ARMS
      modifies this
      ensures Valid() && history == old(history) + [Obs(ctx, arm, reward)]
    {
      hide IsInverse, Renew, Reweigh, Features;
      var x := Features(ctx);
      history := history + [Obs(ctx, arm, reward)];
      assert history[..|history| - 1] == old(history);
      var m := RenewInPlace(a[arm], x, GAMMA);
      a := a[arm := m];
      b := b[arm := Reweigh(b[arm], x, reward, GAMMA)];
      aInv := aInv[arm := Stale];
      labels := labels + 1;
    }

    /** The start of every draw: refresh the inverse if the arm was observed since; the mean is read off it. */
    method PosteriorMean(arm: nat) returns (mu: Vec)
      requires Valid() && arm < N_ARMS
      modifies this`aInv
      ensures Valid() && aInv[arm].Fresh? && IsInverse(aInv[arm].value, PosteriorOf(history, arm))
      ensures mu == Theta(aInv[arm].value, WeightsOf(history, arm))
    {
      hide IsInverse, DominatesIdentity, Conditioned;
      if aInv[arm].Stale? {
        var inverse := InvertPosterior(history, arm, a[arm]);
        aInv := aInv[arm := Fresh(inverse)];
      }
      mu := Theta(aInv[arm].value, b[arm]);
    }
  }

  /** Fed the same labels, the lazy and the eager policy hold the same inverse and the same mean. */
  lemma LazyAgreesWithEager(h: seq<Obs>, arm: nat, eager: Matrix, lazily: Matrix)
    requires IsInverse(eager, PosteriorOf(h, arm)) && IsInverse(lazily, PosteriorOf(h, arm))
    ensures Theta(eager, WeightsOf(h, arm)) == Theta(lazily, WeightsOf(h, arm))
  {
    InverseUnique(eager, lazily, PosteriorOf(h, arm));
  }
}
