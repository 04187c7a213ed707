/** The exploration bonus of LinUCB: what it is meant to be, what it computes, and when the two agree. */
module Optimism {
  import opened Sums
  import opened MatrixInverse
  import opened Posterior

  /** The posterior variance x.(a^-1 x) the optimism bonus is meant to use. */
  ghost function Variance(r: Matrix, x: Vec): real { Form(x, r, x) }

  /** The posterior variance of any context lies between 0 and x.x, whatever was observed. */
  lemma VarianceBounded(h: seq<Obs>, arm: nat, r: Matrix, x: Vec)
    requires IsInverse(r, PosteriorOf(h, arm)) && |x| == DIM
    ensures 0.0 <= Variance(r, x) <= Dot(x, x)
  {
    hide IsInverse, Quad, Dot, Symmetric, Theta, PosteriorOf, Apply;
    var a := PosteriorOf(h, arm);
    var y := Theta(r, x);
    PosteriorStaysAboveIdentity(h, arm);
    forall i | 0 <= i < DIM ensures Apply(a, y, i) == x[i] { ThetaSolves(r, a, x, i); }
    FormAtSolution(y, a, y, x);
    FormIsQuad(a, y);
    VarianceIsDot(r, x);
    assert Quad(a, y) >= Dot(y, y);
    DotNonNegative(y);
    CauchyHalf(x, y);
  }

  lemma VarianceIsDot(r: Matrix, x: Vec)
    ensures Variance(r, x) == Dot(x, Theta(r, x))
  {
    hide Apply;
    SumCong(|x|, FormTerm(x, r, x), DotTerm(x, Theta(r, x)));
  }

  lemma CauchyHalf(x: Vec, y: Vec)
    requires |x| == |y|
    ensures 2.0 * Dot(x, y) <= Dot(x, x) + Dot(y, y)
  {
    hide Sum;
    var n := |x|;
    var twice, both := i => 2.0 * DotTerm(x, y)(i), i => 1.0 * DotTerm(x, x)(i) + 1.0 * DotTerm(y, y)(i);
    hide DotTerm;
    forall i | 0 <= i < n ensures twice(i) <= both(i) { SquareGapTerm(x, y, i); }
    SumLe(n, twice, both);
    SumScale(n, twice, 2.0, DotTerm(x, y));
    SumLinear(n, both, 1.0, DotTerm(x, x), 1.0, DotTerm(y, y));
  }

  lemma SquareGapTerm(x: Vec, y: Vec, i: int)
    ensures 2.0 * DotTerm(x, y)(i) <= 1.0 * DotTerm(x, x)(i) + 1.0 * DotTerm(y, y)(i)
  {
    SquareGap(Get(x, i), Get(y, i));
  }

  lemma SquareGap(x: real, y: real)
    ensures 2.0 * (x * y) <= x * x + y * y
  {
    assert (x - y) * (x - y) >= 0.0;
  }

  /** What the optimism bonus computes: both factors of each term carry the row index. */
  function WidthTerm(r: Matrix, x: Vec): int -> real {
    i => Sum(|x|, j => Get(x, i) * At(r, i, j)) * Get(x, i)
  }

  function Width(r: Matrix, x: Vec): real { Sum(|x|, WidthTerm(r, x)) }

  function Ones(n: nat): (v: Vec)
    ensures |v| == n && forall i :: 0 <= i < n ==> v[i] == 1.0
  {
    seq(n, i => 1.0)
  }

  lemma WidthTermOfFlags(r: Matrix, x: Vec, i: int)
    requires 0 <= i < |x| && (x[i] == 0.0 || x[i] == 1.0)
    ensures WidthTerm(r, x)(i) == FormTerm(x, r, Ones(|x|))(i)
  {
    var one := Ones(|x|);
    SumScale(|x|, j => Get(x, i) * At(r, i, j), Get(x, i), ApplyTerm(r, one, i));
  }

  /** On 0/1 features it is x.(a^-1 1), with the all-ones vector in place of the second x. */
  lemma WidthIsRowSums(r: Matrix, ctx: Ctx)
    ensures Width(r, Features(ctx)) == Form(Features(ctx), r, Ones(DIM))
  {
    hide Sum, WidthTerm, FormTerm;
    var x := Features(ctx);
    forall i | 0 <= i < DIM ensures WidthTerm(r, x)(i) == FormTerm(x, r, Ones(DIM))(i) {
      WidthTermOfFlags(r, x, i);
    }
    SumCong(DIM, WidthTerm(r, x), FormTerm(x, r, Ones(DIM)));
  }

  lemma Dot8(u: Vec, v: Vec)
    requires |u| == |v| == 8
    ensures Dot(u, v) == u[0] * v[0] + u[1] * v[1] + u[2] * v[2] + u[3] * v[3]
      + u[4] * v[4] + u[5] * v[5] + u[6] * v[6] + u[7] * v[7]
  {
    var f := DotTerm(u, v);
    assert Sum(8, f) == Sum(7, f) + f(7) && Sum(7, f) == Sum(6, f) + f(6) && Sum(6, f) == Sum(5, f) + f(5);
    assert Sum(5, f) == Sum(4, f) + f(4) && Sum(4, f) == Sum(3, f) + f(3) && Sum(3, f) == Sum(2, f) + f(2);
  }

  /** Solving against the posterior of one observation: (1 + x x') z == y. */
  lemma SolveOne(arm: nat, reward: real, ctx: Ctx, r: Matrix, y: Vec, z: Vec, i: int)
    requires |y| == |z| == DIM && 0 <= i < DIM && IsInverse(r, PosteriorOf([Obs(ctx, arm, reward)], arm))
    requires forall k :: 0 <= k < DIM ==> z[k] + Features(ctx)[k] * Dot(Features(ctx), z) == y[k]
    ensures Theta(r, y)[i] == z[i]
  {
    hide IsInverse, Features, Dot, Apply;
    var h, x := [Obs(ctx, arm, reward)], Features(ctx);
    assert h[..0] == [];
    var a := PosteriorOf(h, arm);
    assert a == Renew(Identity(DIM), x, GAMMA);
    forall k | 0 <= k < DIM ensures Apply(a, z, k) == y[k] {
      RenewApply(Identity(DIM), x, GAMMA, z, k);
      ApplyIdentity(DIM, z, k);
    }
    Solves(r, a, z, y, i);
  }

  const CHAT: Vec := [1.0, 0.0, 0.0, 0.0, 1.0, 0.0, 1.0, 1.0]
  const CODE: Vec := [0.0, 1.0, 0.0, 0.0, 1.0, 0.0, 1.0, 1.0]

  lemma ChatAndCode()
    ensures Features(Ctx(Chat, Simple)) == CHAT && Features(Ctx(Code, Simple)) == CODE
  {
    assert Features(Ctx(Chat, Simple))[0] == 1.0 && Features(Ctx(Code, Simple))[0] == 0.0;
  }

  lemma SolveAfterChat(arm: nat, reward: real, r: Matrix, y: Vec, z: Vec, p: real)
    requires IsInverse(r, PosteriorOf([Obs(Ctx(Chat, Simple), arm, reward)], arm)) && |y| == |z| == DIM
    requires z[0] + z[4] + z[6] + z[7] == p
    requires forall k :: 0 <= k < DIM ==> z[k] + CHAT[k] * p == y[k]
    ensures Theta(r, y) == z
  {
    hide IsInverse, Dot, Features, PosteriorOf, Theta;
    ChatAndCode();
    Dot8(CHAT, z);
    forall i | 0 <= i < DIM ensures Theta(r, y)[i] == z[i] { SolveOne(arm, reward, Ctx(Chat, Simple), r, y, z, i); }
  }

  /** It is not the variance in general: one chat label already narrows the bonus for code to 1.6, not 2.2. */
  lemma WidthIsNotVariance(arm: nat, reward: real, r: Matrix)
    requires IsInverse(r, PosteriorOf([Obs(Ctx(Chat, Simple), arm, reward)], arm))
    ensures Width(r, Features(Ctx(Code, Simple))) == 1.6
    ensures Variance(r, Features(Ctx(Code, Simple))) == 2.2
  {
    hide IsInverse, Dot, Width, Variance, Form, Features, PosteriorOf, Theta;
    ChatAndCode();
    var z: Vec := [-0.6, 1.0, 0.0, 0.0, 0.4, 0.0, 0.4, 0.4];
    SolveAfterChat(arm, reward, r, CODE, z, 0.6);
    VarianceIsDot(r, CODE);
    Dot8(CODE, z);
    var u: Vec := [0.2, 1.0, 1.0, 1.0, 0.2, 1.0, 0.2, 0.2];
    SolveAfterChat(arm, reward, r, Ones(DIM), u, 0.8);
    WidthIsRowSums(r, Ctx(Code, Simple));
    FormIsDotTheta(CODE, r, Ones(DIM));
    Dot8(CODE, u);
  }

  lemma FormIsDotTheta(w: Vec, r: Matrix, v: Vec)
    requires |w| == |v|
    ensures Form(w, r, v) == Dot(w, Theta(r, v))
  {
    hide Apply;
    SumCong(|v|, FormTerm(w, r, v), DotTerm(w, Theta(r, v)));
  }

  // ---- The posterior, cell by cell ------------------------------------------------------------

  /** The discounted number of labels an arm has seen in one context. */
  ghost function CellWeight(h: seq<Obs>, arm: nat, c: Ctx): real {
    if h == [] then 0.0
    else
      var o, before := h[|h| - 1], CellWeight(h[..|h| - 1], arm, c);
      if o.arm == arm then GAMMA * before + (if o.ctx == c then 1.0 else 0.0) else before
  }

  ghost predicate Seen(h: seq<Obs>, arm: nat, c: Ctx) { exists k :: 0 <= k < |h| && h[k].arm == arm && h[k].ctx == c }

  lemma {:induction false} CellWeightSeen(h: seq<Obs>, arm: nat, c: Ctx)
    ensures CellWeight(h, arm, c) >= 0.0 && (CellWeight(h, arm, c) > 0.0 <==> Seen(h, arm, c))
  {
    if h != [] {
      var init, z := h[..|h| - 1], h[|h| - 1];
      CellWeightSeen(init, arm, c);
      assert forall k :: 0 <= k < |init| ==> init[k] == h[k];
      if Seen(init, arm, c) {
        var k :| 0 <= k < |init| && init[k].arm == arm && init[k].ctx == c;
        assert h[k].ctx == c;
      }
    }
  }

  /** What the labels in one context contribute to a*v along their features. */
  ghost function Mass(h: seq<Obs>, arm: nat, v: Vec, c: Ctx): real { CellWeight(h, arm, c) * Dot(Features(c), v) }

  lemma MassStep(h: seq<Obs>, arm: nat, v: Vec, c: Ctx)
    requires h != []
    ensures var o, was := h[|h| - 1], Mass(h[..|h| - 1], arm, v, c);
      Mass(h, arm, v, c) ==
        if o.arm == arm then GAMMA * was + (if o.ctx == c then Dot(Features(c), v) else 0.0) else was
  {
    hide Dot, Features;
    var w, d := CellWeight(h[..|h| - 1], arm, c), Dot(Features(c), v);
    assert (GAMMA * w + 1.0) * d == GAMMA * (w * d) + d;
    assert (GAMMA * w + 0.0) * d == GAMMA * (w * d);
  }

  ghost function TaskMass(h: seq<Obs>, arm: nat, v: Vec, t: Task): real {
    Mass(h, arm, v, Ctx(t, Simple)) + Mass(h, arm, v, Ctx(t, Complex))
  }

  ghost function ComplexityMass(h: seq<Obs>, arm: nat, v: Vec, c: Complexity): real {
    Mass(h, arm, v, Ctx(Chat, c)) + Mass(h, arm, v, Ctx(Code, c)) + Mass(h, arm, v, Ctx(Extract, c))
      + Mass(h, arm, v, Ctx(Summarize, c))
  }

  /** What all labels contribute to coordinate i of a*v. */
  ghost function Pull(h: seq<Obs>, arm: nat, v: Vec, i: int): real {
    if h == [] then 0.0
    else
      var o, before := h[|h| - 1], Pull(h[..|h| - 1], arm, v, i);
      if o.arm == arm then GAMMA * before + Get(Features(o.ctx), i) * Dot(Features(o.ctx), v) else before
  }

  lemma {:induction false} PosteriorPulls(h: seq<Obs>, arm: nat, v: Vec, i: int)
    requires |v| == DIM && 0 <= i < DIM
    ensures Apply(PosteriorOf(h, arm), v, i) == v[i] + Pull(h, arm, v, i)
  {
    hide Apply, Dot, Features;
    if h == [] {
      ApplyIdentity(DIM, v, i);
    } else {
      var o, init := h[|h| - 1], h[..|h| - 1];
      PosteriorPulls(init, arm, v, i);
      if o.arm == arm { RenewApply(PosteriorOf(init, arm), Features(o.ctx), GAMMA, v, i); }
    }
  }

  lemma TaskFlag(ctx: Ctx, t: Task)
    ensures Get(Features(ctx), TaskIndex(t)) == if ctx == Ctx(t, Simple) || ctx == Ctx(t, Complex) then 1.0 else 0.0
  {
    match ctx.complexity case Simple => case Complex =>
  }

  lemma ComplexityFlag(ctx: Ctx, c: Complexity)
    ensures Get(Features(ctx), 4 + ComplexityIndex(c)) == if ctx.complexity == c then 1.0 else 0.0
    ensures ctx.complexity == c ==>
      ctx == Ctx(Chat, c) || ctx == Ctx(Code, c) || ctx == Ctx(Extract, c) || ctx == Ctx(Summarize, c)
  {
    match ctx.task case Chat => case Code => case Extract => case Summarize =>
  }

  /** Each coordinate collects the cells it is a flag of. */
  lemma {:induction false} TaskPull(h: seq<Obs>, arm: nat, v: Vec, t: Task)
    ensures Pull(h, arm, v, TaskIndex(t)) == TaskMass(h, arm, v, t)
  {
    hide Mass, Dot, Features;
    if h == [] {
      NoMass(arm, v, Ctx(t, Simple));
      NoMass(arm, v, Ctx(t, Complex));
    } else {
      TaskPull(h[..|h| - 1], arm, v, t);
      TaskFlag(h[|h| - 1].ctx, t);
      MassStep(h, arm, v, Ctx(t, Simple));
      MassStep(h, arm, v, Ctx(t, Complex));
    }
  }

  lemma {:induction false} ComplexityPull(h: seq<Obs>, arm: nat, v: Vec, c: Complexity)
    ensures Pull(h, arm, v, 4 + ComplexityIndex(c)) == ComplexityMass(h, arm, v, c)
  {
    hide Mass, Dot, Features;
    if h == [] {
      NoMass(arm, v, Ctx(Chat, c));
      NoMass(arm, v, Ctx(Code, c));
      NoMass(arm, v, Ctx(Extract, c));
      NoMass(arm, v, Ctx(Summarize, c));
    } else {
      ComplexityPull(h[..|h| - 1], arm, v, c);
      ComplexityFlag(h[|h| - 1].ctx, c);
      MassStep(h, arm, v, Ctx(Chat, c));
      MassStep(h, arm, v, Ctx(Code, c));
      MassStep(h, arm, v, Ctx(Extract, c));
      MassStep(h, arm, v, Ctx(Summarize, c));
    }
  }

  /** The intercepts collect every cell. */
  lemma {:induction false} InterceptPull(h: seq<Obs>, arm: nat, v: Vec, i: int)
    requires 6 <= i < 8
    ensures Pull(h, arm, v, i) == Pull(h, arm, v, 4) + Pull(h, arm, v, 5)
  {
    hide Dot, Features;
    if h != [] {
      InterceptPull(h[..|h| - 1], arm, v, i);
      InterceptFlag(h[|h| - 1].ctx, i);
    }
  }

  lemma InterceptFlag(ctx: Ctx, i: int)
    requires 6 <= i < 8
    ensures Get(Features(ctx), i) == 1.0 && Get(Features(ctx), 4) + Get(Features(ctx), 5) == 1.0
    ensures Get(Features(ctx), 4) == 0.0 || Get(Features(ctx), 4) == 1.0
  {
  }

  lemma NoMass(arm: nat, v: Vec, c: Ctx)
    ensures Mass([], arm, v, c) == 0.0
  {
    hide Dot, Features;
  }

  /** p and what it is weighed to have the same sign. */
  ghost predicate SameSign(m: real, p: real) { (p >= 0.0 ==> m >= 0.0) && (p <= 0.0 ==> m <= 0.0) }

  lemma MassSign(h: seq<Obs>, arm: nat, v: Vec, c: Ctx)
    ensures SameSign(Mass(h, arm, v, c), Dot(Features(c), v))
    ensures !Seen(h, arm, c) ==> Mass(h, arm, v, c) == 0.0
    ensures Mass(h, arm, v, c) == 0.0 && Dot(Features(c), v) > 0.0 ==> !Seen(h, arm, c)
  {
    hide Dot, Features, Seen;
    CellWeightSeen(h, arm, c);
    ProductSign(CellWeight(h, arm, c), Dot(Features(c), v));
  }

  lemma ProductSign(w: real, p: real)
    requires w >= 0.0
    ensures SameSign(w * p, p) && (w == 0.0 ==> w * p == 0.0) && (w > 0.0 && p > 0.0 ==> w * p > 0.0)
  {
  }

  /** Solving a*u == x for one context, in its signs alone: a is the context's task and b its complexity, u1..u3 the
      other tasks and b1 the other complexity, s the intercepts, m the masses of the eight cells. */
  ghost predicate Balanced(a: real, u1: real, u2: real, u3: real, b: real, b1: real, s: real,
      m00: real, m01: real, m10: real, m11: real, m20: real, m21: real, m30: real, m31: real) {
    && a + m00 + m01 == 1.0 && u1 + m10 + m11 == 0.0 && u2 + m20 + m21 == 0.0 && u3 + m30 + m31 == 0.0
    && b + m00 + m10 + m20 + m30 == 1.0 && b1 + m01 + m11 + m21 + m31 == 0.0
    && s + m00 + m01 + m10 + m11 + m20 + m21 + m30 + m31 == 1.0
    && SameSign(m01, a + b1 + 2.0 * s) && SameSign(m00, a + b + 2.0 * s) && a + b + 2.0 * s >= 0.0
    && SameSign(m10, u1 + b + 2.0 * s) && SameSign(m11, u1 + b1 + 2.0 * s)
    && SameSign(m20, u2 + b + 2.0 * s) && SameSign(m21, u2 + b1 + 2.0 * s)
    && SameSign(m30, u3 + b + 2.0 * s) && SameSign(m31, u3 + b1 + 2.0 * s)
  }

  /** The other coordinates never add up to more than zero. */
  lemma OthersPullDown(a: real, u1: real, u2: real, u3: real, b: real, b1: real, s: real,
      m00: real, m01: real, m10: real, m11: real, m20: real, m21: real, m30: real, m31: real)
    requires Balanced(a, u1, u2, u3, b, b1, s, m00, m01, m10, m11, m20, m21, m30, m31)
    ensures u1 + u2 + u3 + b1 <= 0.0
    ensures u1 + u2 + u3 + b1 == 0.0 ==> s > 0.0 && s <= b
  {
    assert a + u1 + u2 + u3 == s && b + b1 == s;
    if s > 0.0 {
      if b > 3.0 * s {
        assert u1 <= -m11 && u2 <= -m21 && u3 <= -m31;
      } else if b >= s {
        assert u1 <= 0.0 && u2 <= 0.0 && u3 <= 0.0;
      } else if b >= -2.0 * s {
        assert u1 <= 0.0 && u2 <= 0.0 && u3 <= 0.0 && m01 >= 0.0;
        assert m11 < 0.0 || m21 < 0.0 || m31 < 0.0;
      }
    }
  }

  /** To zero only when no other cell pulls, though all of them would. */
  lemma OthersQuiet(a: real, u1: real, u2: real, u3: real, b: real, b1: real, s: real,
      m00: real, m01: real, m10: real, m11: real, m20: real, m21: real, m30: real, m31: real)
    requires Balanced(a, u1, u2, u3, b, b1, s, m00, m01, m10, m11, m20, m21, m30, m31)
    requires u1 + u2 + u3 + b1 == 0.0
    ensures m01 == 0.0 && m10 == 0.0 && m11 == 0.0 && m20 == 0.0 && m21 == 0.0 && m30 == 0.0 && m31 == 0.0
    ensures u1 == 0.0 && u2 == 0.0 && u3 == 0.0 && b1 == 0.0 && a == s && b == s && s > 0.0
  {
    assert a + u1 + u2 + u3 == s && b + b1 == s;
    OthersPullDown(a, u1, u2, u3, b, b1, s, m00, m01, m10, m11, m20, m21, m30, m31);
    assert b <= 3.0 * s && u1 <= 0.0 && u2 <= 0.0 && u3 <= 0.0;
  }

  // ---- The bonus against the variance ------------------------------------------------------------

  /** What solving a*u == x for the features of a context says cell by cell. */
  lemma CellEquations(h: seq<Obs>, arm: nat, u: Vec, ctx: Ctx)
    requires |u| == DIM && forall i :: 0 <= i < DIM ==> Apply(PosteriorOf(h, arm), u, i) == Features(ctx)[i]
    ensures forall t :: u[TaskIndex(t)] + TaskMass(h, arm, u, t) == if t == ctx.task then 1.0 else 0.0
    ensures forall c ::
      u[4 + ComplexityIndex(c)] + ComplexityMass(h, arm, u, c) == if c == ctx.complexity then 1.0 else 0.0
    ensures u[6] == u[7] && u[6] + ComplexityMass(h, arm, u, Simple) + ComplexityMass(h, arm, u, Complex) == 1.0
  {
    hide Apply, Mass, TaskMass, ComplexityMass, Pull;
    forall i | 0 <= i < DIM ensures Features(ctx)[i] == u[i] + Pull(h, arm, u, i) { PosteriorPulls(h, arm, u, i); }
    forall t ensures Pull(h, arm, u, TaskIndex(t)) == TaskMass(h, arm, u, t) { TaskPull(h, arm, u, t); }
    forall c ensures Pull(h, arm, u, 4 + ComplexityIndex(c)) == ComplexityMass(h, arm, u, c) {
      ComplexityPull(h, arm, u, c);
    }
    ComplexityPull(h, arm, u, Simple);
    ComplexityPull(h, arm, u, Complex);
    InterceptPull(h, arm, u, 6);
    InterceptPull(h, arm, u, 7);
  }

  lemma FeatureDot(ctx: Ctx, u: Vec)
    requires |u| == DIM
    ensures Dot(Features(ctx), u) == u[TaskIndex(ctx.task)] + u[4 + ComplexityIndex(ctx.complexity)] + u[6] + u[7]
  {
    hide Dot;
    Dot8(Features(ctx), u);
  }

  /** Coordinates of u outside the features of the context. */
  function Outside(ctx: Ctx, u: Vec): real
    requires |u| == DIM
  {
    u[0] + u[1] + u[2] + u[3] - u[TaskIndex(ctx.task)] + u[4] + u[5] - u[4 + ComplexityIndex(ctx.complexity)]
  }

  function NextTask(t: Task): Task {
    match t case Chat => Code case Code => Extract case Extract => Summarize case Summarize => Chat
  }

  function OtherComplexity(c: Complexity): Complexity { match c case Simple => Complex case Complex => Simple }

  lemma MassesAround(h: seq<Obs>, arm: nat, u: Vec, t: Task, c: Complexity)
    ensures TaskMass(h, arm, u, t) == Mass(h, arm, u, Ctx(t, c)) + Mass(h, arm, u, Ctx(t, OtherComplexity(c)))
    ensures ComplexityMass(h, arm, u, c) == Mass(h, arm, u, Ctx(t, c)) + Mass(h, arm, u, Ctx(NextTask(t), c))
      + Mass(h, arm, u, Ctx(NextTask(NextTask(t)), c)) + Mass(h, arm, u, Ctx(NextTask(NextTask(NextTask(t))), c))
  {
    hide Mass;
    match t case Chat => case Code => case Extract => case Summarize =>
    match c case Simple => case Complex =>
  }

  lemma CellsAround(ctx: Ctx, x: Ctx)
    ensures var t, c := ctx.task, ctx.complexity;
      var t1, d := NextTask(t), OtherComplexity(c);
      var t2 := NextTask(t1);
      var t3 := NextTask(t2);
      x == ctx || x == Ctx(t, d) || x == Ctx(t1, c) || x == Ctx(t1, d) || x == Ctx(t2, c) || x == Ctx(t2, d)
      || x == Ctx(t3, c) || x == Ctx(t3, d)
  {
    match x.complexity case Simple => case Complex =>
    match x.task case Chat => case Code => case Extract => case Summarize =>
  }

  /** The prediction u makes for a context. */
  function Level(u: Vec, c: Ctx): real
    requires |u| == DIM
  {
    u[TaskIndex(c.task)] + u[4 + ComplexityIndex(c.complexity)] + u[6] + u[7]
  }

  ghost predicate Solution(h: seq<Obs>, arm: nat, u: Vec, ctx: Ctx) {
    |u| == DIM && forall i :: 0 <= i < DIM ==> Apply(PosteriorOf(h, arm), u, i) == Features(ctx)[i]
  }

  /** The cell equations in order around the context's own cell. */
  lemma EquationsAround(h: seq<Obs>, arm: nat, u: Vec, t: Task, c: Complexity, t1: Task, t2: Task, t3: Task,
      d: Complexity)
    requires |u| == DIM && Solution(h, arm, u, Ctx(t, c)) && t1 == NextTask(t) && t2 == NextTask(t1)
      && t3 == NextTask(t2) && d == OtherComplexity(c)
    ensures u[TaskIndex(t)] + Mass(h, arm, u, Ctx(t, c)) + Mass(h, arm, u, Ctx(t, d)) == 1.0
    ensures u[TaskIndex(t1)] + Mass(h, arm, u, Ctx(t1, c)) + Mass(h, arm, u, Ctx(t1, d)) == 0.0
    ensures u[TaskIndex(t2)] + Mass(h, arm, u, Ctx(t2, c)) + Mass(h, arm, u, Ctx(t2, d)) == 0.0
    ensures u[TaskIndex(t3)] + Mass(h, arm, u, Ctx(t3, c)) + Mass(h, arm, u, Ctx(t3, d)) == 0.0
    ensures u[4 + ComplexityIndex(c)] + Mass(h, arm, u, Ctx(t, c)) + Mass(h, arm, u, Ctx(t1, c))
      + Mass(h, arm, u, Ctx(t2, c))
      + Mass(h, arm, u, Ctx(t3, c)) == 1.0
    ensures u[4 + ComplexityIndex(d)] + Mass(h, arm, u, Ctx(t, d)) + Mass(h, arm, u, Ctx(t1, d))
      + Mass(h, arm, u, Ctx(t2, d))
      + Mass(h, arm, u, Ctx(t3, d)) == 0.0
    ensures u[6] == u[7]
  {
    hide Apply, Features, Mass, PosteriorOf, TaskMass, ComplexityMass, TaskIndex, ComplexityIndex;
    CellEquations(h, arm, u, Ctx(t, c));
    OutsideAround(Ctx(t, c), u);
    MassesAround(h, arm, u, t, c);
    MassesAround(h, arm, u, t1, c);
    MassesAround(h, arm, u, t2, c);
    MassesAround(h, arm, u, t3, c);
    MassesAround(h, arm, u, t, d);
  }

  lemma InterceptAround(h: seq<Obs>, arm: nat, u: Vec, t: Task, c: Complexity, t1: Task, t2: Task, t3: Task,
      d: Complexity)
    requires |u| == DIM && Solution(h, arm, u, Ctx(t, c)) && t1 == NextTask(t) && t2 == NextTask(t1)
      && t3 == NextTask(t2) && d == OtherComplexity(c)
    ensures u[6] + Mass(h, arm, u, Ctx(t, c)) + Mass(h, arm, u, Ctx(t, d)) + Mass(h, arm, u, Ctx(t1, c))
      + Mass(h, arm, u, Ctx(t1, d))
      + Mass(h, arm, u, Ctx(t2, c)) + Mass(h, arm, u, Ctx(t2, d)) + Mass(h, arm, u, Ctx(t3, c))
        + Mass(h, arm, u, Ctx(t3, d)) == 1.0
  {
    hide Apply, Features, Mass, PosteriorOf, TaskMass, ComplexityMass, TaskIndex, ComplexityIndex;
    CellEquations(h, arm, u, Ctx(t, c));
    MassesAround(h, arm, u, t, c);
    MassesAround(h, arm, u, t, d);
  }

  /** A cell's mass has the sign of the prediction for it. */
  ghost predicate Aligned(h: seq<Obs>, arm: nat, u: Vec, c: Ctx)
    requires |u| == DIM
  {
    SameSign(Mass(h, arm, u, c), Level(u, c))
  }

  lemma SignAround(h: seq<Obs>, arm: nat, u: Vec, t: Task, c: Complexity)
    requires |u| == DIM && u[6] == u[7] && Aligned(h, arm, u, Ctx(t, c))
    ensures SameSign(Mass(h, arm, u, Ctx(t, c)), u[TaskIndex(t)] + u[4 + ComplexityIndex(c)] + 2.0 * u[6])
  {
    hide Mass, TaskIndex, ComplexityIndex;
  }

  ghost predicate QuietAt(h: seq<Obs>, arm: nat, u: Vec, c: Ctx)
    requires |u| == DIM
  {
    Mass(h, arm, u, c) == 0.0
  }

  ghost predicate BalancedAround(h: seq<Obs>, arm: nat, u: Vec, t: Task, c: Complexity, t1: Task, t2: Task, t3: Task,
      d: Complexity)
    requires |u| == DIM
  {
    Balanced(u[TaskIndex(t)], u[TaskIndex(t1)], u[TaskIndex(t2)], u[TaskIndex(t3)],
      u[4 + ComplexityIndex(c)], u[4 + ComplexityIndex(d)], u[6],
      Mass(h, arm, u, Ctx(t, c)), Mass(h, arm, u, Ctx(t, d)), Mass(h, arm, u, Ctx(t1, c)), Mass(h, arm, u, Ctx(t1, d)),
      Mass(h, arm, u, Ctx(t2, c)), Mass(h, arm, u, Ctx(t2, d)), Mass(h, arm, u, Ctx(t3, c)),
        Mass(h, arm, u, Ctx(t3, d)))
  }

  lemma SolutionBalanced(h: seq<Obs>, arm: nat, u: Vec, t: Task, c: Complexity, t1: Task, t2: Task, t3: Task,
      d: Complexity)
    requires |u| == DIM && Solution(h, arm, u, Ctx(t, c)) && t1 == NextTask(t) && t2 == NextTask(t1)
      && t3 == NextTask(t2) && d == OtherComplexity(c)
    requires (forall x :: Aligned(h, arm, u, x)) && Level(u, Ctx(t, c)) >= 0.0
    ensures BalancedAround(h, arm, u, t, c, t1, t2, t3, d) && u[6] == u[7]
  {
    hide Mass, TaskIndex, ComplexityIndex, Aligned, Solution;
    EquationsAround(h, arm, u, t, c, t1, t2, t3, d);
    InterceptAround(h, arm, u, t, c, t1, t2, t3, d);
    hide NextTask, OtherComplexity, SameSign;
    SignsAround(h, arm, u, t, c, t1, t2, t3, d);
  }

  lemma SignsAround(h: seq<Obs>, arm: nat, u: Vec, t: Task, c: Complexity, t1: Task, t2: Task, t3: Task, d: Complexity)
    requires |u| == DIM && u[6] == u[7] && forall x :: Aligned(h, arm, u, x)
    ensures SameSign(Mass(h, arm, u, Ctx(t, c)), u[TaskIndex(t)] + u[4 + ComplexityIndex(c)] + 2.0 * u[6])
    ensures SameSign(Mass(h, arm, u, Ctx(t, d)), u[TaskIndex(t)] + u[4 + ComplexityIndex(d)] + 2.0 * u[6])
    ensures SameSign(Mass(h, arm, u, Ctx(t1, c)), u[TaskIndex(t1)] + u[4 + ComplexityIndex(c)] + 2.0 * u[6])
    ensures SameSign(Mass(h, arm, u, Ctx(t1, d)), u[TaskIndex(t1)] + u[4 + ComplexityIndex(d)] + 2.0 * u[6])
    ensures SameSign(Mass(h, arm, u, Ctx(t2, c)), u[TaskIndex(t2)] + u[4 + ComplexityIndex(c)] + 2.0 * u[6])
    ensures SameSign(Mass(h, arm, u, Ctx(t2, d)), u[TaskIndex(t2)] + u[4 + ComplexityIndex(d)] + 2.0 * u[6])
    ensures SameSign(Mass(h, arm, u, Ctx(t3, c)), u[TaskIndex(t3)] + u[4 + ComplexityIndex(c)] + 2.0 * u[6])
    ensures SameSign(Mass(h, arm, u, Ctx(t3, d)), u[TaskIndex(t3)] + u[4 + ComplexityIndex(d)] + 2.0 * u[6])
  {
    hide Mass, TaskIndex, ComplexityIndex, SameSign, Aligned;
    SignAround(h, arm, u, t, c);
    SignAround(h, arm, u, t, d);
    SignAround(h, arm, u, t1, c);
    SignAround(h, arm, u, t1, d);
    SignAround(h, arm, u, t2, c);
    SignAround(h, arm, u, t2, d);
    SignAround(h, arm, u, t3, c);
    SignAround(h, arm, u, t3, d);
  }

  lemma OutsidePulledDown(h: seq<Obs>, arm: nat, u: Vec, ctx: Ctx)
    requires |u| == DIM && Solution(h, arm, u, ctx) && (forall c :: Aligned(h, arm, u, c)) && Level(u, ctx) >= 0.0
    ensures Outside(ctx, u) <= 0.0
    ensures Outside(ctx, u) == 0.0 ==> forall c :: Level(u, c) > 0.0 && (c != ctx ==> QuietAt(h, arm, u, c))
    ensures (forall c :: c != ctx ==> QuietAt(h, arm, u, c)) ==> Outside(ctx, u) == 0.0
  {
    hide Mass, Aligned, Solution, TaskIndex, ComplexityIndex;
    var t, c := ctx.task, ctx.complexity;
    var t1, d := NextTask(t), OtherComplexity(c);
    var t2 := NextTask(t1);
    var t3 := NextTask(t2);
    SolutionBalanced(h, arm, u, t, c, t1, t2, t3, d);
    OutsideAround(ctx, u);
    EquationsAround(h, arm, u, t, c, t1, t2, t3, d);
    hide Outside, SameSign, Balanced;
    OthersPullDown(u[TaskIndex(t)], u[TaskIndex(t1)], u[TaskIndex(t2)], u[TaskIndex(t3)],
      u[4 + ComplexityIndex(c)], u[4 + ComplexityIndex(d)], u[6],
      Mass(h, arm, u, Ctx(t, c)), Mass(h, arm, u, Ctx(t, d)), Mass(h, arm, u, Ctx(t1, c)), Mass(h, arm, u, Ctx(t1, d)),
      Mass(h, arm, u, Ctx(t2, c)), Mass(h, arm, u, Ctx(t2, d)), Mass(h, arm, u, Ctx(t3, c)),
        Mass(h, arm, u, Ctx(t3, d)));
    if Outside(ctx, u) == 0.0 {
      OthersQuiet(u[TaskIndex(t)], u[TaskIndex(t1)], u[TaskIndex(t2)], u[TaskIndex(t3)],
        u[4 + ComplexityIndex(c)], u[4 + ComplexityIndex(d)], u[6],
        Mass(h, arm, u, Ctx(t, c)), Mass(h, arm, u, Ctx(t, d)), Mass(h, arm, u, Ctx(t1, c)),
          Mass(h, arm, u, Ctx(t1, d)),
        Mass(h, arm, u, Ctx(t2, c)), Mass(h, arm, u, Ctx(t2, d)), Mass(h, arm, u, Ctx(t3, c)),
          Mass(h, arm, u, Ctx(t3, d)));
      forall x ensures Level(u, x) > 0.0 && (x != ctx ==> QuietAt(h, arm, u, x)) { CellsAround(ctx, x); }
    }
    if forall x :: x != ctx ==> QuietAt(h, arm, u, x) {
      assert QuietAt(h, arm, u, Ctx(t, d)) && QuietAt(h, arm, u, Ctx(t1, c)) && QuietAt(h, arm, u, Ctx(t1, d));
      assert QuietAt(h, arm, u, Ctx(t2, c)) && QuietAt(h, arm, u, Ctx(t2, d)) && QuietAt(h, arm, u, Ctx(t3, c))
        && QuietAt(h, arm, u, Ctx(t3, d));
    }
  }

  lemma OutsideAround(ctx: Ctx, u: Vec)
    requires |u| == DIM
    ensures var t1 := NextTask(ctx.task);
      Outside(ctx, u) == u[TaskIndex(t1)] + u[TaskIndex(NextTask(t1))] + u[TaskIndex(NextTask(NextTask(t1)))]
        + u[4 + ComplexityIndex(OtherComplexity(ctx.complexity))]
    ensures NextTask(NextTask(NextTask(NextTask(ctx.task)))) == ctx.task && Cycles(ctx.task)
    ensures OtherComplexity(OtherComplexity(ctx.complexity)) == ctx.complexity != OtherComplexity(ctx.complexity)
  {
    match ctx.task case Chat => case Code => case Extract => case Summarize =>
    match ctx.complexity case Simple => case Complex =>
  }

  predicate Cycles(t: Task) { t != NextTask(t) && t != NextTask(NextTask(t)) && t != NextTask(NextTask(NextTask(t))) }

  /** Width and variance of a context through the solution u == a^-1 x. */
  lemma WidthThroughSolution(h: seq<Obs>, arm: nat, r: Matrix, ctx: Ctx)
    requires IsInverse(r, PosteriorOf(h, arm))
    ensures var u := Theta(r, Features(ctx));
      && Solution(h, arm, u, ctx) && Variance(r, Features(ctx)) == Level(u, ctx)
      && Width(r, Features(ctx)) == u[0] + u[1] + u[2] + u[3] + u[4] + u[5] + u[6] + u[7]
  {
    hide IsInverse, Features, Apply, Dot, Form, Symmetric, DominatesIdentity, PosteriorOf, Variance, Width, Theta;
    var a, x, one := PosteriorOf(h, arm), Features(ctx), Ones(DIM);
    var u, y := Theta(r, x), Theta(r, one);
    PosteriorStaysAboveIdentity(h, arm);
    forall i | 0 <= i < DIM ensures Apply(a, u, i) == x[i] && Apply(a, y, i) == one[i] {
      ThetaSolves(r, a, x, i);
      ThetaSolves(r, a, one, i);
    }
    VarianceIsDot(r, x);
    FeatureDot(ctx, u);
    WidthIsRowSums(r, ctx);
    FormIsDotTheta(x, r, one);
    FormAtSolution(y, a, u, x);
    FormAtSolution(u, a, y, one);
    FormSymmetric(y, a, u);
    Dot8(one, u);
  }

  /** The bonus never exceeds the variance, and equals it exactly when every label of the arm carried this very
      context. */
  lemma WidthIsVarianceExactlyWhen(h: seq<Obs>, arm: nat, r: Matrix, ctx: Ctx)
    requires IsInverse(r, PosteriorOf(h, arm))
    ensures Width(r, Features(ctx)) <= Variance(r, Features(ctx))
    ensures Width(r, Features(ctx)) == Variance(r, Features(ctx))
      <==> forall k :: 0 <= k < |h| && h[k].arm == arm ==> h[k].ctx == ctx
  {
    hide IsInverse, Features, Variance, Width, Theta, Mass, Dot, PosteriorOf, Solution, Apply;
    var u := Theta(r, Features(ctx));
    WidthThroughSolution(h, arm, r, ctx);
    VarianceBounded(h, arm, r, Features(ctx));
    forall c ensures Aligned(h, arm, u, c)
             ensures Level(u, c) > 0.0 ==> (Mass(h, arm, u, c) == 0.0 <==> !Seen(h, arm, c))
             ensures !Seen(h, arm, c) ==> Mass(h, arm, u, c) == 0.0
    {
      FeatureDot(c, u);
      MassSign(h, arm, u, c);
    }
    OutsidePulledDown(h, arm, u, ctx);
    assert Outside(ctx, u) == Width(r, Features(ctx)) - Variance(r, Features(ctx));
    assert (forall c :: c != ctx ==> !Seen(h, arm, c))
      <==> forall k :: 0 <= k < |h| && h[k].arm == arm ==> h[k].ctx == ctx by {
      OnlySeen(h, arm, ctx);
    }
  }

  lemma OnlySeen(h: seq<Obs>, arm: nat, ctx: Ctx)
    ensures (forall c :: c != ctx ==> !Seen(h, arm, c))
      <==> forall k :: 0 <= k < |h| && h[k].arm == arm ==> h[k].ctx == ctx
  {
    if forall c :: c != ctx ==> !Seen(h, arm, c) {
      forall k | 0 <= k < |h| && h[k].arm == arm ensures h[k].ctx == ctx { assert Seen(h, arm, h[k].ctx); }
    }
  }

  // ---- The bonus can vanish ----------------------------------------------------------------------

  function Flag(o: Obs, c: Ctx): real { if o.ctx == c then 1.0 else 0.0 }

  lemma WeightGrows(h: seq<Obs>, o: Obs, c: Ctx)
    ensures CellWeight(h + [o], o.arm, c) == GAMMA * CellWeight(h, o.arm, c) + Flag(o, c)
  {
    assert (h + [o])[..|h + [o]| - 1] == h;
  }

  lemma WeightOfSix(h: seq<Obs>, arm: nat, c: Ctx)
    requires |h| == 6 && forall k :: 0 <= k < 6 ==> h[k].arm == arm
    ensures CellWeight(h, arm, c)
      == 0.9509900499 * Flag(h[0], c) + 0.96059601 * Flag(h[1], c) + 0.970299 * Flag(h[2], c)
      + 0.9801 * Flag(h[3], c) + 0.99 * Flag(h[4], c) + Flag(h[5], c)
  {
    assert h[..1] == [] + [h[0]] && h[..2] == h[..1] + [h[1]] && h[..3] == h[..2] + [h[2]];
    assert h[..4] == h[..3] + [h[3]] && h[..5] == h[..4] + [h[4]] && h == h[..5] + [h[5]];
    WeightGrows([], h[0], c);
    WeightGrows(h[..1], h[1], c);
    WeightGrows(h[..2], h[2], c);
    WeightGrows(h[..3], h[3], c);
    WeightGrows(h[..4], h[4], c);
    WeightGrows(h[..5], h[5], c);
  }

  /** Chat has only been complex and only the other tasks simple. */
  function SixLabels(arm: nat, reward: real): (h: seq<Obs>)
    ensures |h| == 6
  {
    var chat := Obs(Ctx(Chat, Complex), arm, reward);
    [chat, chat, chat, Obs(Ctx(Code, Simple), arm, reward), Obs(Ctx(Extract, Simple), arm, reward),
      Obs(Ctx(Summarize, Simple), arm, reward)]
  }

  /** Then the bonus sum of the unseen simple chat is negative, so the clamp removes its bonus though its variance is
      not zero. */
  lemma WidthCanBeNegative(arm: nat, reward: real, r: Matrix)
    requires IsInverse(r, PosteriorOf(SixLabels(arm, reward), arm))
    ensures Width(r, Features(Ctx(Chat, Simple))) < 0.0 < Variance(r, Features(Ctx(Chat, Simple)))
  {
    hide IsInverse, Features, Variance, Width, Theta, CellWeight, Dot, PosteriorOf, Apply, SixLabels;
    var h, ctx := SixLabels(arm, reward), Ctx(Chat, Simple);
    var u := Theta(r, Features(ctx));
    WidthThroughSolution(h, arm, r, ctx);
    CellEquations(h, arm, u, ctx);
    SixWeights(arm, reward);
    SixEquations(h, arm, u);
    assert Level(u, ctx) == u[0] + u[4] + u[6] + u[7];
    hide CellWeight, Solution, Mass, Level;
    SixSolved(u[0], u[1], u[2], u[3], u[4], u[5], u[6]);
  }

  lemma SixEquations(h: seq<Obs>, arm: nat, u: Vec)
    requires |u| == DIM && Solution(h, arm, u, Ctx(Chat, Simple))
    requires CellWeight(h, arm, Ctx(Chat, Complex)) == 2.8818850599 && CellWeight(h, arm, Ctx(Code, Simple)) == 0.9801
    requires CellWeight(h, arm, Ctx(Extract, Simple)) == 0.99 && CellWeight(h, arm, Ctx(Summarize, Simple)) == 1.0
    requires CellWeight(h, arm, Ctx(Chat, Simple)) == 0.0 && CellWeight(h, arm, Ctx(Code, Complex)) == 0.0
    requires CellWeight(h, arm, Ctx(Extract, Complex)) == 0.0 && CellWeight(h, arm, Ctx(Summarize, Complex)) == 0.0
    ensures u[6] == u[7]
    ensures u[0] + 2.8818850599 * (u[0] + u[5] + 2.0 * u[6]) == 1.0
    ensures u[1] + 0.9801 * (u[1] + u[4] + 2.0 * u[6]) == 0.0 && u[2] + 0.99 * (u[2] + u[4] + 2.0 * u[6]) == 0.0
    ensures u[3] + (u[3] + u[4] + 2.0 * u[6]) == 0.0
    ensures u[4] + 0.9801 * (u[1] + u[4] + 2.0 * u[6]) + 0.99 * (u[2] + u[4] + 2.0 * u[6])
      + (u[3] + u[4] + 2.0 * u[6]) == 1.0
    ensures u[5] + 2.8818850599 * (u[0] + u[5] + 2.0 * u[6]) == 0.0
    ensures u[0] + u[1] + u[2] + u[3] == u[6]
  {
    hide CellWeight, Solution, Mass, NextTask, OtherComplexity, TaskIndex, ComplexityIndex;
    Around();
    EquationsAround(h, arm, u, Chat, Simple, Code, Extract, Summarize, Complex);
    InterceptAround(h, arm, u, Chat, Simple, Code, Extract, Summarize, Complex);
    MassIs(h, arm, u, Chat, Complex, 2.8818850599);
    MassIs(h, arm, u, Code, Simple, 0.9801);
    MassIs(h, arm, u, Extract, Simple, 0.99);
    MassIs(h, arm, u, Summarize, Simple, 1.0);
    MassIs(h, arm, u, Chat, Simple, 0.0);
    MassIs(h, arm, u, Code, Complex, 0.0);
    MassIs(h, arm, u, Extract, Complex, 0.0);
    MassIs(h, arm, u, Summarize, Complex, 0.0);
  }

  lemma Around()
    ensures NextTask(Chat) == Code && NextTask(Code) == Extract && NextTask(Extract) == Summarize
      && OtherComplexity(Simple) == Complex
    ensures TaskIndex(Chat) == 0 && TaskIndex(Code) == 1 && TaskIndex(Extract) == 2 && TaskIndex(Summarize) == 3
    ensures ComplexityIndex(Simple) == 0 && ComplexityIndex(Complex) == 1
  {
  }

  lemma MassIs(h: seq<Obs>, arm: nat, u: Vec, t: Task, c: Complexity, w: real)
    requires |u| == DIM && u[6] == u[7] && CellWeight(h, arm, Ctx(t, c)) == w
    ensures Mass(h, arm, u, Ctx(t, c)) == w * (u[TaskIndex(t)] + u[4 + ComplexityIndex(c)] + 2.0 * u[6])
  {
    hide CellWeight, Dot, Features;
    FeatureDot(Ctx(t, c), u);
  }

  lemma SixSolved(u0: real, u1: real, u2: real, u3: real, b: real, b1: real, s: real)
    requires u0 + 2.8818850599 * (u0 + b1 + 2.0 * s) == 1.0
    requires u1 + 0.9801 * (u1 + b + 2.0 * s) == 0.0 && u2 + 0.99 * (u2 + b + 2.0 * s) == 0.0
      && u3 + (u3 + b + 2.0 * s) == 0.0
    requires b + 0.9801 * (u1 + b + 2.0 * s) + 0.99 * (u2 + b + 2.0 * s) + (u3 + b + 2.0 * s) == 1.0
    requires b1 + 2.8818850599 * (u0 + b1 + 2.0 * s) == 0.0
    requires u0 + u1 + u2 + u3 == s
    ensures s < 0.0 && u0 + b + 2.0 * s > 0.0 && u0 + u1 + u2 + u3 + b + b1 + 2.0 * s == 4.0 * s
  {
  }

  lemma SixWeights(arm: nat, reward: real)
    ensures var h := SixLabels(arm, reward);
      && CellWeight(h, arm, Ctx(Chat, Complex)) == 2.8818850599 && CellWeight(h, arm, Ctx(Code, Simple)) == 0.9801
      && CellWeight(h, arm, Ctx(Extract, Simple)) == 0.99 && CellWeight(h, arm, Ctx(Summarize, Simple)) == 1.0
      && CellWeight(h, arm, Ctx(Chat, Simple)) == 0.0 && CellWeight(h, arm, Ctx(Code, Complex)) == 0.0
      && CellWeight(h, arm, Ctx(Extract, Complex)) == 0.0 && CellWeight(h, arm, Ctx(Summarize, Complex)) == 0.0
  {
    hide CellWeight;
    var h := SixLabels(arm, reward);
    WeightOfSix(h, arm, Ctx(Chat, Complex));
    WeightOfSix(h, arm, Ctx(Code, Simple));
    WeightOfSix(h, arm, Ctx(Extract, Simple));
    WeightOfSix(h, arm, Ctx(Summarize, Simple));
    WeightOfSix(h, arm, Ctx(Chat, Simple));
    WeightOfSix(h, arm, Ctx(Code, Complex));
    WeightOfSix(h, arm, Ctx(Extract, Complex));
    WeightOfSix(h, arm, Ctx(Summarize, Complex));
  }
}
