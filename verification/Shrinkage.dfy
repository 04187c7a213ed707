/** Discounted two-level Beta-Binomial means: context cells shrink to their arm, arms to the operator catalog. */
module Shrinkage {
  import opened Sums
  import opened MatrixInverse
  import opened Posterior

  const PRIOR_WEIGHT: real := 8.0
  const CELL_WEIGHT: real := 4.0
  const CELLS: nat := 8

  /** The catalog's (stale) quality of each arm. */
  function CatalogQuality(arm: nat): (q: real)
    requires arm < N_ARMS
    ensures 0.0 < q < 1.0
  {
    [0.90, 0.60, 0.72, 0.50, 0.55][arm]
  }

  datatype Key = Key(cell: Ctx, arm: nat)

  function Lookup(m: map<Key, real>, k: Key): real { if k in m then m[k] else 0.0 }

  function Aged(m: map<Key, real>): (r: map<Key, real>)
    ensures forall k :: Lookup(r, k) == GAMMA * Lookup(m, k)
  {
    map k | k in m :: GAMMA * m[k]
  }

  function AgedArms(v: seq<real>): (r: seq<real>)
    ensures |r| == |v| && forall i :: 0 <= i < |v| ==> r[i] == GAMMA * v[i]
  {
    seq(|v|, i requires 0 <= i < |v| => GAMMA * v[i])
  }

  function Bumped(m: map<Key, real>, key: Key, x: real): (r: map<Key, real>)
    ensures forall k :: Lookup(r, k) == Lookup(m, k) + if k == key then x else 0.0
  {
    m[key := Lookup(m, key) + x]
  }

  /** What one label adds to the success (good) or failure count. */
  function Credit(reward: real, good: bool): real { if good then reward else 1.0 - reward }

  /** The discounted count of an arm: every label on any arm ages it. */
  ghost function ArmCount(h: seq<Obs>, arm: nat, good: bool): real {
    if h == [] then 0.0
    else
      var o := h[|h| - 1];
      GAMMA * ArmCount(h[..|h| - 1], arm, good) + if o.arm == arm then Credit(o.reward, good) else 0.0
  }

  ghost function CellCount(h: seq<Obs>, k: Key, good: bool): real {
    if h == [] then 0.0
    else
      var o := h[|h| - 1];
      GAMMA * CellCount(h[..|h| - 1], k, good) + if Key(o.ctx, o.arm) == k then Credit(o.reward, good) else 0.0
  }

  ghost predicate Arms(h: seq<Obs>) { forall i :: 0 <= i < |h| ==> h[i].arm < N_ARMS }

  ghost predicate Rewards(h: seq<Obs>) { forall i :: 0 <= i < |h| ==> 0.0 <= h[i].reward <= 1.0 }

  // ---- Cells add up to their arm --------------------------------------------------------------

  function CellAt(i: int): Ctx {
    Ctx(if i < 2 then Chat else if i < 4 then Code else if i < 6 then Extract else Summarize,
        if i % 2 == 0 then Simple else Complex)
  }

  function CellIndex(c: Ctx): (i: nat)
    ensures i < CELLS && CellAt(i) == c
    ensures forall j :: 0 <= j < CELLS && CellAt(j) == c ==> j == i
  {
    2 * TaskIndex(c.task) + ComplexityIndex(c.complexity)
  }

  ghost function CellTerm(h: seq<Obs>, arm: nat, good: bool): int -> real {
    i => CellCount(h, Key(CellAt(i), arm), good)
  }

  lemma {:induction false} CellsAddUp(h: seq<Obs>, arm: nat, good: bool)
    ensures ArmCount(h, arm, good) == Sum(CELLS, CellTerm(h, arm, good))
  {
    hide Sum;
    if h == [] {
      SumConst(CELLS, CellTerm(h, arm, good), 0.0);
    } else {
      var o, h' := h[|h| - 1], h[..|h| - 1];
      CellsAddUp(h', arm, good);
      var added := i => if Key(o.ctx, o.arm) == Key(CellAt(i), arm) then Credit(o.reward, good) else 0.0;
      SumLinear(CELLS, CellTerm(h, arm, good), GAMMA, CellTerm(h', arm, good), 1.0, added);
      SumSingle(CELLS, added, CellIndex(o.ctx));
    }
  }

  // ---- What the counts are ---------------------------------------------------------------------------------

  /** The weight label i has left after n labels, on either scale. */
  ghost function ArmShare(h: seq<Obs>, arm: nat, good: bool): int -> real {
    i => if 0 <= i < |h| && h[i].arm == arm
      then Pow(0.99, |h| - 1 - i) * (if good then h[i].reward else 1.0 - h[i].reward) else 0.0
  }

  ghost function CellShare(h: seq<Obs>, cell: Ctx, arm: nat, good: bool): int -> real {
    i => if 0 <= i < |h| && h[i].arm == arm && h[i].ctx == cell
      then Pow(0.99, |h| - 1 - i) * (if good then h[i].reward else 1.0 - h[i].reward) else 0.0
  }

  /** A count sums the rewards of its labels, or what they lack of 1, each discounted by 0.99 for every later label on
      any arm. */
  lemma CountsAreDiscounted(h: seq<Obs>, cell: Ctx, arm: nat, good: bool)
    ensures ArmCount(h, arm, good) == Sum(|h|, ArmShare(h, arm, good))
    ensures CellCount(h, Key(cell, arm), good) == Sum(|h|, CellShare(h, cell, arm, good))
  {
    ArmCountIsDiscounted(h, arm, good);
    CellCountIsDiscounted(h, cell, arm, good);
  }

  lemma {:induction false} ArmCountIsDiscounted(h: seq<Obs>, arm: nat, good: bool)
    ensures ArmCount(h, arm, good) == Sum(|h|, ArmShare(h, arm, good))
  {
    hide ArmShare, Credit;
    if h != [] {
      var n := |h| - 1;
      ArmCountIsDiscounted(h[..n], arm, good);
      forall i: nat | i < n ensures ArmShare(h, arm, good)(i) == 0.99 * ArmShare(h[..n], arm, good)(i) {
        ArmShareAges(h, arm, good, i);
      }
      SumScale(n, ArmShare(h, arm, good), 0.99, ArmShare(h[..n], arm, good));
      ArmShareStarts(h, arm, good);
    }
  }

  lemma ArmShareAges(h: seq<Obs>, arm: nat, good: bool, i: nat)
    requires i + 1 < |h|
    ensures ArmShare(h, arm, good)(i) == 0.99 * ArmShare(h[..|h| - 1], arm, good)(i)
  {
    OlderWeighs(|h| - 1 - i, if good then h[i].reward else 1.0 - h[i].reward);
  }

  lemma ArmShareStarts(h: seq<Obs>, arm: nat, good: bool)
    requires h != []
    ensures var o := h[|h| - 1];
      ArmShare(h, arm, good)(|h| - 1) == if o.arm == arm then Credit(o.reward, good) else 0.0
  {
    assert Pow(0.99, 0) == 1.0;
  }

  lemma {:induction false} CellCountIsDiscounted(h: seq<Obs>, cell: Ctx, arm: nat, good: bool)
    ensures CellCount(h, Key(cell, arm), good) == Sum(|h|, CellShare(h, cell, arm, good))
  {
    hide CellShare, Credit;
    if h != [] {
      var n := |h| - 1;
      CellCountIsDiscounted(h[..n], cell, arm, good);
      forall i: nat | i < n ensures CellShare(h, cell, arm, good)(i) == 0.99 * CellShare(h[..n], cell, arm, good)(i) {
        CellShareAges(h, cell, arm, good, i);
      }
      SumScale(n, CellShare(h, cell, arm, good), 0.99, CellShare(h[..n], cell, arm, good));
      CellShareStarts(h, cell, arm, good);
    }
  }

  lemma CellShareAges(h: seq<Obs>, cell: Ctx, arm: nat, good: bool, i: nat)
    requires i + 1 < |h|
    ensures CellShare(h, cell, arm, good)(i) == 0.99 * CellShare(h[..|h| - 1], cell, arm, good)(i)
  {
    OlderWeighs(|h| - 1 - i, if good then h[i].reward else 1.0 - h[i].reward);
  }

  lemma CellShareStarts(h: seq<Obs>, cell: Ctx, arm: nat, good: bool)
    requires h != []
    ensures var o := h[|h| - 1];
      CellShare(h, cell, arm, good)(|h| - 1) == if o.arm == arm && o.ctx == cell then Credit(o.reward, good) else 0.0
  {
    assert Pow(0.99, 0) == 1.0;
  }

  lemma OlderWeighs(k: nat, x: real)
    requires k > 0
    ensures Pow(0.99, k) * x == 0.99 * (Pow(0.99, k - 1) * x)
  {
    assert Pow(0.99, k) == 0.99 * Pow(0.99, k - 1);
  }

  // ---- Total evidence is bounded --------------------------------------------------------------

  ghost function Evidence(h: seq<Obs>): int -> real {
    arm => if arm < 0 then 0.0 else ArmCount(h, arm, true) + ArmCount(h, arm, false)
  }

  ghost function Pow(g: real, n: nat): (p: real)
    requires 0.0 < g
    ensures p > 0.0
  {
    if n == 0 then 1.0 else g * Pow(g, n - 1)
  }

  /** After n labels all arms together hold exactly (1 - GAMMA^n)/(1 - GAMMA) units of evidence. */
  lemma {:induction false} EvidenceClosedForm(h: seq<Obs>)
    requires Arms(h)
    ensures Sum(N_ARMS, Evidence(h)) * (1.0 - GAMMA) == 1.0 - Pow(GAMMA, |h|)
  {
    hide Sum;
    if h == [] {
      SumConst(N_ARMS, Evidence(h), 0.0);
    } else {
      var o, h' := h[|h| - 1], h[..|h| - 1];
      EvidenceClosedForm(h');
      var added := i => if o.arm == i then 1.0 else 0.0;
      SumLinear(N_ARMS, Evidence(h), GAMMA, Evidence(h'), 1.0, added);
      SumSingle(N_ARMS, added, o.arm);
    }
  }

  /** So it stays below 1/(1 - GAMMA) for ever, however long the history. */
  lemma EvidenceBounded(h: seq<Obs>)
    requires Arms(h)
    ensures Sum(N_ARMS, Evidence(h)) < 1.0 / (1.0 - GAMMA)
  {
    EvidenceClosedForm(h);
  }

  // ---- Means ----------------------------------------------------------------------------------

  lemma {:induction false} CountsNonNegative(h: seq<Obs>, arm: nat, cell: Ctx, good: bool)
    requires Rewards(h)
    ensures ArmCount(h, arm, good) >= 0.0 && CellCount(h, Key(cell, arm), good) >= 0.0
  {
    if h != [] { CountsNonNegative(h[..|h| - 1], arm, cell, good); }
  }

  /** (good + w*prior) / (good + bad + w). */
  function Shrunk(good: real, bad: real, w: real, prior: real): real
    requires good + bad + w != 0.0
  {
    (good + w * prior) / (good + bad + w)
  }

  lemma {:induction false} EvidenceNonNegative(h: seq<Obs>, arm: nat, cell: Ctx)
    ensures ArmCount(h, arm, true) + ArmCount(h, arm, false) >= 0.0
    ensures CellCount(h, Key(cell, arm), true) + CellCount(h, Key(cell, arm), false) >= 0.0
  {
    if h != [] { EvidenceNonNegative(h[..|h| - 1], arm, cell); }
  }

  /** The shrunken mean balances evidence against the weighted prior. */
  lemma ShrunkBalances(good: real, bad: real, w: real, prior: real)
    requires good + bad >= 0.0 && w > 0.0
    ensures Shrunk(good, bad, w, prior) * (good + bad + w) == good + w * prior
    ensures good == bad == 0.0 ==> Shrunk(good, bad, w, prior) == prior
  {
    var total, m := good + bad + w, Shrunk(good, bad, w, prior);
    assert m * total == good + w * prior;
    if good == bad == 0.0 {
      assert (m - prior) * w == 0.0;
      NoFactor(m - prior, w);
    }
  }

  /** The catalog counts for eight labels of an arm and gives these qualities; an arm counts for four labels of a
      cell. */
  lemma PriorsAre(arm: nat)
    requires arm < N_ARMS
    ensures PRIOR_WEIGHT == 8.0 && CELL_WEIGHT == 4.0
    ensures CatalogQuality(arm) == match arm case 0 => 0.9 case 1 => 0.6 case 2 => 0.72 case 3 => 0.5 case _ => 0.55
  {
  }

  lemma NoFactor(x: real, t: real)
    requires t > 0.0 && x * t == 0.0
    ensures x == 0.0
  {
  }

  /** For rewards in the unit interval it stays strictly inside (0, 1), on the side of its prior the evidence points
      to. */
  lemma ShrunkBetween(good: real, bad: real, w: real, prior: real)
    requires good >= 0.0 && bad >= 0.0 && w > 0.0 && 0.0 < prior < 1.0
    ensures 0.0 < Shrunk(good, bad, w, prior) < 1.0
    ensures good * (1.0 - prior) >= bad * prior <==> Shrunk(good, bad, w, prior) >= prior
  {
    var total := good + bad + w;
    var m := Shrunk(good, bad, w, prior);
    ShrunkBalances(good, bad, w, prior);
    hide Shrunk, Product;
    var towards, against := Product(w, prior), Product(w, 1.0 - prior);
    Complement(prior, w);
    Inside(good, bad, total, towards, against, m);
    SignOfProduct(m - prior, total);
    Excess(good, bad, w, prior, m);
  }

  lemma Inside(good: real, bad: real, total: real, towards: real, against: real, m: real)
    requires good >= 0.0 && bad >= 0.0 && towards > 0.0 && against > 0.0
    requires total == good + bad + towards + against && m * total == good + towards
    ensures 0.0 < m < 1.0
  {
    PositiveFactor(m, total, good + towards);
    Complement(m, total);
    PositiveFactor(1.0 - m, total, bad + against);
  }

  lemma Complement(m: real, total: real)
    ensures (1.0 - m) * total == total - m * total
  {
  }

  lemma Excess(good: real, bad: real, w: real, prior: real, m: real)
    requires m * (good + bad + w) == good + w * prior
    ensures (m - prior) * (good + bad + w) == good * (1.0 - prior) - bad * prior
  {
    var total := good + bad + w;
    assert (m - prior) * total == m * total - prior * total;
    assert prior * total == prior * good + prior * bad + prior * w;
    assert good * (1.0 - prior) == good - prior * good;
  }

  lemma PositiveFactor(x: real, t: real, y: real)
    requires t > 0.0 && y > 0.0 && x * t == y
    ensures x > 0.0
  {
  }

  lemma SignOfProduct(x: real, t: real)
    requires t > 0.0
    ensures x * t >= 0.0 <==> x >= 0.0
  {
  }

  lemma CountStep(h: seq<Obs>, o: Obs, good: bool)
    ensures Credit(o.reward, good) == if good then o.reward else 1.0 - o.reward
    ensures forall arm: nat ::
      (ArmCount(h + [o], arm, good) == GAMMA * ArmCount(h, arm, good)
        + if o.arm == arm then Credit(o.reward, good) else 0.0)
    ensures forall k ::
      (CellCount(h + [o], k, good) == GAMMA * CellCount(h, k, good)
        + if k == Key(o.ctx, o.arm) then Credit(o.reward, good) else 0.0)
  {
    assert (h + [o])[..|h + [o]| - 1] == h;
  }

  class CatalogPriorMean {
    var alpha: seq<real>
    var beta: seq<real>
    var cellAlpha: map<Key, real>
    var cellBeta: map<Key, real>
    var labels: nat
    ghost var history: seq<Obs>

    ghost predicate Valid()
      reads this
    {
      && |alpha| == |beta| == N_ARMS && labels == |history| && Arms(history)
      && (forall arm :: 0 <= arm < N_ARMS ==>
        alpha[arm] == ArmCount(history, arm, true) && beta[arm] == ArmCount(history, arm, false))
      && (forall k :: Lookup(cellAlpha, k) == CellCount(history, k, true))
      && (forall k :: Lookup(cellBeta, k) == CellCount(history, k, false))
    }

    constructor ()
      ensures Valid() && history == []
    {
      alpha, beta := seq(N_ARMS, i => 0.0), seq(N_ARMS, i => 0.0);
      cellAlpha, cellBeta := map[], map[];
      labels, history := 0, [];
    }

    method Observe(ctx: Ctx, arm: nat, reward: real)
      requires Valid() && arm < N_ARMS
      modifies this
      ensures Valid() && history == old(history) + [Obs(ctx, arm, reward)]
    {
      hide Lookup, Aged, AgedArms, Bumped, ArmCount, CellCount, Credit;
      CountStep(history, Obs(ctx, arm, reward), true);
      CountStep(history, Obs(ctx, arm, reward), false);
      history := history + [Obs(ctx, arm, reward)];
      alpha, beta := AgedArms(alpha), AgedArms(beta);
      cellAlpha, cellBeta := Aged(cellAlpha), Aged(cellBeta);
      alpha := alpha[arm := alpha[arm] + reward];
      beta := beta[arm := beta[arm] + (1.0 - reward)];
      var key := Key(ctx, arm);
      cellAlpha, cellBeta := Bumped(cellAlpha, key, reward), Bumped(cellBeta, key, 1.0 - reward);
      labels := labels + 1;
    }

    /** _mean: the cell's counts shrunk toward the arm's own shrunken mean. */
    method Mean(cell: Ctx, arm: nat) returns (armMean: real, mean: real)
      requires Valid() && arm < N_ARMS
      ensures Rewards(history) ==> 0.0 < armMean < 1.0 && 0.0 < mean < 1.0
      ensures armMean * (ArmCount(history, arm, true) + ArmCount(history, arm, false) + PRIOR_WEIGHT)
        == ArmCount(history, arm, true) + PRIOR_WEIGHT * CatalogQuality(arm)
      ensures mean * (CellCount(history, Key(cell, arm), true) + CellCount(history, Key(cell, arm), false)
        + CELL_WEIGHT)
        == CellCount(history, Key(cell, arm), true) + CELL_WEIGHT * armMean
      ensures (forall i :: 0 <= i < |history| ==> history[i].ctx != cell || history[i].arm != arm) ==> mean == armMean
    {
      hide ArmCount, CellCount, Lookup, Rewards, CatalogQuality;
      EvidenceNonNegative(history, arm, cell);
      var ca, cb := Lookup(cellAlpha, Key(cell, arm)), Lookup(cellBeta, Key(cell, arm));
      armMean := Shrunk(alpha[arm], beta[arm], PRIOR_WEIGHT, CatalogQuality(arm));
      mean := Shrunk(ca, cb, CELL_WEIGHT, armMean);
      ShrunkBalances(alpha[arm], beta[arm], PRIOR_WEIGHT, CatalogQuality(arm));
      ShrunkBalances(ca, cb, CELL_WEIGHT, armMean);
      hide Shrunk;
      if Rewards(history) {
        CountsNonNegative(history, arm, cell, true);
        CountsNonNegative(history, arm, cell, false);
        ShrunkBetween(alpha[arm], beta[arm], PRIOR_WEIGHT, CatalogQuality(arm));
        ShrunkBetween(ca, cb, CELL_WEIGHT, armMean);
      }
      if forall i :: 0 <= i < |history| ==> history[i].ctx != cell || history[i].arm != arm {
        ColdCell(history, Key(cell, arm), true);
        ColdCell(history, Key(cell, arm), false);
      }
    }
  }

  lemma {:induction false} ColdCell(h: seq<Obs>, k: Key, good: bool)
    requires forall i :: 0 <= i < |h| ==> h[i].ctx != k.cell || h[i].arm != k.arm
    ensures CellCount(h, k, good) == 0.0
  {
    if h != [] { ColdCell(h[..|h| - 1], k, good); }
  }
}
