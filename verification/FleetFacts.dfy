/** What scopes, stages and attempts of the fleet come to, in the terms of the task and the model. */
module FleetFacts {
  import opened Wrappers
  import opened Fleet

  ghost predicate Fits(m: Model, t: Task) { t.contextTokens + t.outputTokens <= m.maxTokens }

  /** A stage's scope: every filter it sets, and no other. */
  lemma ScopeMeans<B>(m: Model, t: Task, st: Stage<B>, exclude: set<string>)
    ensures InScope(m, t, st, exclude) <==>
      && m.name !in exclude
      && (st.providers == None || m.provider in st.providers.value)
      && (st.tierFilter == None || m.tier in st.tierFilter.value)
      && (!st.requireFit || Fits(m, t)) && (!st.requireReasoning || m.reasoningCapable)
  {
  }

  /** Scopes list names in catalog order, one for each model that passes. */
  lemma {:induction false} ScopeInOrder<B>(a: seq<Model>, b: seq<Model>, t: Task, st: Stage<B>, exclude: set<string>)
    ensures Scope(a + b, t, st, exclude) == Scope(a, t, st, exclude) + Scope(b, t, st, exclude)
    ensures |a| == 1 ==> Scope(a, t, st, exclude) == if InScope(a[0], t, st, exclude) then [a[0].name] else []
  {
    hide InScope;
    if |a| == 1 { assert a[..0] == []; }
    if b == [] {
      assert a + b == a;
    } else {
      var n := |b| - 1;
      assert (a + b)[..|a + b| - 1] == a + b[..n] && (a + b)[|a + b| - 1] == b[n];
      ScopeInOrder(a, b[..n], t, st, exclude);
    }
  }

  /** What a stage is offered is what the seam returns for the task's type, the stage's budget and its scope; an empty
      scope gets nothing. */
  lemma OfferIsRouted<B(!new)>(catalog: seq<Model>, router: Router<B>, t: Task, st: Stage<B>, attempted: set<string>)
    requires Seam(catalog, router)
    ensures Offer(catalog, router, t, st, attempted) == router(t.taskType, st.budget, Scope(catalog, t, st, attempted))
  {
  }

  /** The stages of the shipped policies, by the models each would take. */
  lemma StagesMean<B>(p: Policy, t: Task, m: Model, exclude: set<string>)
    ensures forall st :: st in Stages<B>(p, t) ==> st.budget == None
    ensures p.Scoped? ==>
      var sts := Stages<B>(p, t);
      |sts| == 1 && (InScope(m, t, sts[0], exclude) <==> m.name !in exclude && m.provider in p.providers)
    ensures p.MixedShipped? ==> |Stages<B>(p, t)| == 1
    ensures !p.Scoped? ==>
      var sts := Stages<B>(p, t);
      sts != [] && (InScope(m, t, sts[|sts| - 1], exclude) <==> m.name !in exclude)
    ensures p.MixedLocalFirst? && t.reasoningRequired ==>
      var sts := Stages<B>(p, t);
      |sts| == 2 && (InScope(m, t, sts[0], exclude) <==> m.name !in exclude && Fits(m, t) && m.reasoningCapable)
    ensures p.MixedLocalFirst? && !t.reasoningRequired && t.taskType in {"code_repair", "planning"} ==>
      var sts := Stages<B>(p, t);
      |sts| == 2 && (InScope(m, t, sts[0], exclude) <==> m.name !in exclude && Fits(m, t) && m.tier != Fast)
    ensures p.MixedLocalFirst? && !t.reasoningRequired && t.taskType !in {"code_repair", "planning"} ==>
      var sts := Stages<B>(p, t);
      && |sts| == 3
      && (InScope(m, t, sts[1], exclude) <==> m.name !in exclude && Fits(m, t) && m.tier != Powerful)
      && (InScope(m, t, sts[0], exclude) <==> InScope(m, t, sts[1], exclude) && m.provider == "local")
  {
  }

  /** How an attempt comes out: at the capacity wall, refused by the provider under pressure, or tried. */
  lemma AttemptMeans(c: TaskCase, m: Model, s: Scenario, pressure: Pressure, draws: Draws, pricing: Pricing)
    ensures var o, t := SimulateAttempt(c, m, s, pressure, draws, pricing), c.task;
      var limited := m.provider != "local" && s == CapacityPressure && pressure(s, t.id, m.name) < 0.35;
      && (o.deadlineMiss <==> o.latency > t.latencyBudget)
      && (if !Fits(m, t) then o.kind == Capacity && o.latency == m.latencyP50
          else if limited then o.kind == RateLimited && 4.0 * o.latency == m.latencyP50
          else o.kind == if draws(t.id, m.name, "success") < SuccessP(c, m) then Success else QualityFail)
      && (o.success <==> o.kind == Success)
      && (!Fits(m, t) || limited ==> o.outputTokens == 0 && o.cost == 0.0)
  {
    hide SuccessP, Truncate;
  }

  /** Success is never certain nor hopeless, falls as difficulty rises, and is not hurt by a reasoning-capable model. */
  lemma SuccessFalls(c: TaskCase, harder: TaskCase, m: Model)
    requires harder.task == c.task && c.difficulty <= harder.difficulty
    ensures 0.02 <= SuccessP(harder, m) <= SuccessP(c, m) <= 0.98
    ensures SuccessP(c, m) <= SuccessP(c, m.(reasoningCapable := true))
  {
  }

  /** Within the comfort of its tier a model succeeds at the tier's own rate, more or less what the task asks of it. */
  lemma SuccessInComfort(c: TaskCase, m: Model)
    requires c.difficulty <= match m.tier case Fast => 0.35 case Balanced => 0.6 case Powerful => 0.9
    ensures var rate := match m.tier case Fast => 0.92 case Balanced => 0.95 case Powerful => 0.97;
      && (!c.task.reasoningRequired ==> SuccessP(c, m) == if c.task.toolUse then rate - 0.08 else rate)
      && (c.task.reasoningRequired && !m.reasoningCapable ==>
        SuccessP(c, m) == if c.task.toolUse then rate - 0.33 else rate - 0.25)
      && (c.task.reasoningRequired && m.reasoningCapable ==>
        SuccessP(c, m) == if c.task.toolUse then rate - 0.03 else if m.tier == Fast then 0.97 else 0.98)
  {
  }

  /** At the middle of their draws an attempt writes what the task expects and takes the model's own latency, longer by
      the share of 50000 tokens the context has. */
  lemma AttemptInTheMiddle(c: TaskCase, m: Model, s: Scenario, pressure: Pressure, draws: Draws, pricing: Pricing)
    requires Fits(m, c.task) && s != CapacityPressure
    requires draws(c.task.id, m.name, "latency") == 0.5 && draws(c.task.id, m.name, "tokens") == 0.5
    ensures var o, t := SimulateAttempt(c, m, s, pressure, draws, pricing), c.task;
      && o.latency == m.latencyP50 * (1.0 + t.contextTokens as real / 50000.0)
      && o.outputTokens == t.outputTokens && o.cost == pricing(m, t.contextTokens, t.outputTokens)
  {
    hide SuccessP;
    assert c.task.outputTokens as real * 1.0 == c.task.outputTokens as real;
  }

  /** A success is worth 1.25 more than a failure at the same price; a cent weighs as much as 250 ms. */
  lemma UtilityTrades(o: Outcome, cents: real)
    ensures o.(success := true).Utility() == o.(success := false).Utility() + 1.25
    ensures o.(cost := o.cost + cents).Utility() == o.(latency := o.latency + 250.0 * cents).Utility()
    ensures o.(cost := o.cost + 20.0 * cents).Utility() == o.Utility() - cents
  {
  }
}
