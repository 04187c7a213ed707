/** The fleet escalation driver: failover reacts to what the egress reports, never to hidden difficulty. */
module Fleet {
  import opened Wrappers

  datatype Tier = Fast | Balanced | Powerful
  datatype Scenario = AllAvailable | LocalOutage | HostedOutage | CapacityPressure

  datatype Model = Model(name: string, provider: string, tier: Tier, latencyP50: real, reasoningCapable: bool,
    maxTokens: nat)

  /** What a policy may condition on. */
  datatype Task = Task(id: string, taskType: string, contextTokens: nat, outputTokens: nat, toolUse: bool,
                       reasoningRequired: bool, latencyBudget: real)

  /** A corpus row: the task and its hidden difficulty. */
  datatype TaskCase = TaskCase(task: Task, difficulty: real)

  const LOCAL: set<string> := {"local"}
  const HARD_CLASSES: set<string> := {"code_repair", "planning"}

  function Demand(t: Task): nat { t.contextTokens + t.outputTokens }

  // ---- One attempt -------------------------------------------------------------------------------------

  /** Draws keyed to the pressure seed, shared by all runs. */
  type Pressure = (Scenario, string, string) -> real
  /** Draws keyed to the outcome seed, by task, model and tag. */
  type Draws = (string, string, string) -> real
  /** compute_cost_cents of a model for input and output tokens. */
  type Pricing = (Model, int, int) -> real

  datatype Kind = Success | QualityFail | Capacity | RateLimited

  datatype Outcome = Outcome(kind: Kind, success: bool, latency: real, outputTokens: int, cost: real,
    deadlineMiss: bool) {
    predicate ObservableFailure() { kind == Capacity || kind == RateLimited }

    function Utility(): real { (if success then 1.0 else -0.25) - 0.05 * cost - 0.0002 * latency }
  }

  function RateLimitP(s: Scenario): real { if s == CapacityPressure then 0.35 else 0.0 }

  predicate ProviderRateLimited(pressure: Pressure, taskId: string, m: Model, s: Scenario) {
    m.provider !in LOCAL && RateLimitP(s) > 0.0 && pressure(s, taskId, m.name) < RateLimitP(s)
  }

  function Comfort(t: Tier): real { match t case Fast => 0.35 case Balanced => 0.60 case Powerful => 0.90 }

  function BaseSuccess(t: Tier): real { match t case Fast => 0.92 case Balanced => 0.95 case Powerful => 0.97 }

  function Max(a: real, b: real): real { if a < b then b else a }

  function Min(a: real, b: real): real { if b < a then b else a }

  /** Python's int() of a float. */
  function Truncate(x: real): int { if x >= 0.0 then x.Floor else -((-x).Floor) }

  function SuccessP(c: TaskCase, m: Model): real {
    var p := BaseSuccess(m.tier) - 0.90 * Max(0.0, c.difficulty - Comfort(m.tier));
    var q := if c.task.reasoningRequired then p + (if m.reasoningCapable then 0.05 else -0.25) else p;
    Min(0.98, Max(0.02, if c.task.toolUse then q - 0.08 else q))
  }

  function SimulateAttempt(c: TaskCase, m: Model, s: Scenario, pressure: Pressure, draws: Draws,
      pricing: Pricing): Outcome {
    var t := c.task;
    if Demand(t) > m.maxTokens then
      Outcome(Capacity, false, m.latencyP50, 0, 0.0, m.latencyP50 > t.latencyBudget)
    else if ProviderRateLimited(pressure, t.id, m, s) then
      Outcome(RateLimited, false, m.latencyP50 * 0.25, 0, 0.0, m.latencyP50 * 0.25 > t.latencyBudget)
    else
      var success := draws(t.id, m.name, "success") < SuccessP(c, m);
      var latency := m.latencyP50 * (1.0 + t.contextTokens as real / 50000.0)
        * (0.7 + 0.6 * draws(t.id, m.name, "latency"));
      var out := Truncate(t.outputTokens as real * (0.8 + 0.4 * draws(t.id, m.name, "tokens")));
      var inTokens := if t.contextTokens < m.maxTokens then t.contextTokens else m.maxTokens;
      Outcome(if success then Success else QualityFail, success, latency, out, pricing(m, inTokens, out),
        latency > t.latencyBudget)
  }

  /** An observable failure is decided by the task, the model and the scenario; difficulty and outcome draws have no
      say. It never succeeds and costs nothing. */
  lemma ObservableFailureExactly(c: TaskCase, m: Model, s: Scenario, pressure: Pressure, draws: Draws, pricing: Pricing)
    ensures var o := SimulateAttempt(c, m, s, pressure, draws, pricing);
      && (o.ObservableFailure() <==> Demand(c.task) > m.maxTokens || ProviderRateLimited(pressure, c.task.id, m, s))
      && (o.ObservableFailure() ==> !o.success && o.cost == 0.0)
      && (o.kind == Capacity <==> Demand(c.task) > m.maxTokens)
      && (o.success <==> o.kind == Success)
  {
  }

  // ---- Stages and policies ---------------------------------------------------------------------------------

  datatype Stage<Budget> = Stage(
    budget: Option<Budget>,
    providers: Option<set<string>>,
    tierFilter: Option<set<Tier>>,
    requireFit: bool,
    requireReasoning: bool)

  predicate InScope<B>(m: Model, t: Task, st: Stage<B>, exclude: set<string>) {
    && m.name !in exclude
    && (st.providers.Some? ==> m.provider in st.providers.value)
    && (st.tierFilter.Some? ==> m.tier in st.tierFilter.value)
    && (st.requireFit ==> m.maxTokens >= Demand(t))
    && (st.requireReasoning ==> m.reasoningCapable)
  }

  /** The names of the models in scope, in catalog order. */
  function Scope<B>(catalog: seq<Model>, t: Task, st: Stage<B>, exclude: set<string>): seq<string> {
    if catalog == [] then []
    else
      var rest, m := Scope(catalog[..|catalog| - 1], t, st, exclude), catalog[|catalog| - 1];
      if InScope(m, t, st, exclude) then rest + [m.name] else rest
  }

  lemma {:induction false} ScopeExactly<B>(catalog: seq<Model>, t: Task, st: Stage<B>, exclude: set<string>,
      name: string)
    ensures name in Scope(catalog, t, st, exclude)
      <==> exists m :: m in catalog && m.name == name && InScope(m, t, st, exclude)
  {
    if catalog != [] {
      var init, z := catalog[..|catalog| - 1], catalog[|catalog| - 1];
      ScopeExactly(init, t, st, exclude, name);
      assert catalog == init + [z];
    }
  }

  datatype Policy = Scoped(providers: set<string>) | MixedShipped | MixedLocalFirst

  function Unlimited<B>(providers: Option<set<string>>, tiers: Option<set<Tier>>, fit: bool,
      reasoning: bool): Stage<B> {
    Stage(None, providers, tiers, fit, reasoning)
  }

  function Stages<B>(p: Policy, t: Task): seq<Stage<B>> {
    match p
    case Scoped(providers) => [Unlimited(Some(providers), None, false, false)]
    case MixedShipped => [Unlimited(None, None, false, false)]
    case MixedLocalFirst =>
      var anything := Unlimited(None, None, false, false);
      if t.reasoningRequired then [Unlimited(None, None, true, true), anything]
      else if t.taskType in HARD_CLASSES then [Unlimited(None, Some({Powerful, Balanced}), true, false), anything]
      else [Unlimited(Some(LOCAL), Some({Fast, Balanced}), true, false),
        Unlimited(None, Some({Fast, Balanced}), true, false), anything]
  }

  // ---- Routing one task ---------------------------------------------------------------------------------------

  /** The routing seam: from a task type, a budget and a scope to a model, or no eligible model. */
  type Router<!Budget> = (string, Option<Budget>, seq<string>) -> Option<Model>

  /** All that is known of it: what it returns is a catalog model of a name in the scope. */
  ghost predicate Seam<B(!new)>(catalog: seq<Model>, router: Router<B>) {
    forall tt, b, scope :: router(tt, b, scope).Some? ==>
      router(tt, b, scope).value in catalog && router(tt, b, scope).value.name in scope
  }

  ghost predicate NamesIdentify(catalog: seq<Model>) {
    forall a, b :: a in catalog && b in catalog && a.name == b.name ==> a == b
  }

  datatype Attempt = Attempt(model: Model, outcome: Outcome)

  /** How an attempt of a task on a model comes out. */
  type Record = Model -> Outcome

  /** What the router offers a stage once some models have been tried. */
  function Offer<B>(catalog: seq<Model>, router: Router<B>, t: Task, st: Stage<B>,
      attempted: set<string>): Option<Model> {
    var scope := Scope(catalog, t, st, attempted);
    if scope == [] then None else router(t.taskType, st.budget, scope)
  }

  function Route<B>(catalog: seq<Model>, router: Router<B>, record: Record, t: Task, stages: seq<Stage<B>>,
      attempted: set<string>): seq<Attempt> {
    if stages == [] then []
    else match Offer(catalog, router, t, stages[0], attempted)
      case None => Route(catalog, router, record, t, stages[1..], attempted)
      case Some(m) =>
        var a := Attempt(m, record(m));
        if a.outcome.ObservableFailure() then
          [a] + Route(catalog, router, record, t, stages[1..], attempted + {m.name})
        else [a]
  }

  function Models(attempts: seq<Attempt>): (ms: seq<Model>)
    ensures |ms| == |attempts| && forall i :: 0 <= i < |ms| ==> ms[i] == attempts[i].model
  {
    seq(|attempts|, i requires 0 <= i < |attempts| => attempts[i].model)
  }

  function Names(attempts: seq<Attempt>, n: nat): set<string>
    requires n <= |attempts|
  {
    set i | 0 <= i < n :: attempts[i].model.name
  }

  ghost predicate Distinct(attempts: seq<Attempt>) {
    forall i, j :: 0 <= i < j < |attempts| ==> attempts[i].model.name != attempts[j].model.name
  }

  ghost predicate OnlyLastSettles(attempts: seq<Attempt>) {
    forall i :: 0 <= i < |attempts| - 1 ==> attempts[i].outcome.ObservableFailure()
  }

  /** No stage asks for a model twice; a task moves on only past an observable failure. */
  lemma {:induction false} EscalationShape<B(!new)>(catalog: seq<Model>, router: Router<B>, record: Record, t: Task,
      stages: seq<Stage<B>>, attempted: set<string>)
    requires Seam(catalog, router)
    ensures var r := Route(catalog, router, record, t, stages, attempted);
      && Distinct(r) && OnlyLastSettles(r) && |r| <= |stages|
      && forall a :: a in r ==> a.model in catalog && a.model.name !in attempted && a.outcome == record(a.model)
  {
    if stages != [] {
      var offer := Offer(catalog, router, t, stages[0], attempted);
      if offer.None? {
        EscalationShape(catalog, router, record, t, stages[1..], attempted);
      } else {
        var m := offer.value;
        ScopeExactly(catalog, t, stages[0], attempted, m.name);
        EscalationShape(catalog, router, record, t, stages[1..], attempted + {m.name});
      }
    }
  }

  /** Stages from..to are offered nothing beyond what was tried. */
  ghost predicate Skipped<B>(catalog: seq<Model>, router: Router<B>, t: Task, stages: seq<Stage<B>>, from: nat,
      to: nat, tried: set<string>) {
    to <= |stages| && forall k :: from <= k < to ==> Offer(catalog, router, t, stages[k], tried).None?
  }

  /** Where the search for the i-th attempt starts, given the stages that made the attempts. */
  function After(used: seq<nat>, i: nat): nat
    requires i <= |used|
  {
    if i == 0 then 0 else used[i - 1] + 1
  }

  /** The attempts r, made at the stages used: each is the first offer after the previous attempt of a model not yet
      tried, each but the last failed observably, and unless the last one settled the task no later stage is offered
      anything. */
  ghost predicate Escalates<B>(catalog: seq<Model>, router: Router<B>, record: Record, t: Task, stages: seq<Stage<B>>,
      attempted: set<string>,
      r: seq<Attempt>, used: seq<nat>) {
    && |used| == |r|
    && (forall i :: 0 <= i < |r| ==> EscalatesAt(catalog, router, record, t, stages, attempted, r, used, i))
    && (r == [] || r[|r| - 1].outcome.ObservableFailure() ==>
      Skipped(catalog, router, t, stages, After(used, |r|), |stages|, attempted + Names(r, |r|)))
  }

  ghost predicate EscalatesAt<B>(catalog: seq<Model>, router: Router<B>, record: Record, t: Task,
      stages: seq<Stage<B>>, attempted: set<string>,
      r: seq<Attempt>, used: seq<nat>, i: nat)
    requires |used| == |r| && i < |r|
  {
    var tried := attempted + Names(r, i);
    && After(used, i) <= used[i] < |stages| && Skipped(catalog, router, t, stages, After(used, i), used[i], tried)
    && Offer(catalog, router, t, stages[used[i]], tried) == Some(r[i].model)
    && r[i].outcome == record(r[i].model)
    && (i < |r| - 1 ==> r[i].outcome.ObservableFailure())
  }

  /** The attempts of a task are exactly the one escalation its stages allow. */
  lemma RouteExactly<B>(catalog: seq<Model>, router: Router<B>, record: Record, t: Task, stages: seq<Stage<B>>,
      attempted: set<string>, r: seq<Attempt>)
    ensures r == Route(catalog, router, record, t, stages, attempted)
      <==> exists used :: Escalates(catalog, router, record, t, stages, attempted, r, used)
  {
    hide Route, Escalates;
    var used := RouteEscalates(catalog, router, record, t, stages, attempted);
    if used :| Escalates(catalog, router, record, t, stages, attempted, r, used) {
      EscalatesRoute(catalog, router, record, t, stages, attempted, r, used);
    }
  }

  function Later(used: seq<nat>): (u: seq<nat>)
    ensures |u| == |used| && forall i :: 0 <= i < |u| ==> u[i] == used[i] + 1
  {
    seq(|used|, i requires 0 <= i < |used| => used[i] + 1)
  }

  lemma {:induction false} RouteEscalates<B>(catalog: seq<Model>, router: Router<B>, record: Record, t: Task,
      stages: seq<Stage<B>>, attempted: set<string>)
    returns (used: seq<nat>)
    ensures Escalates(catalog, router, record, t, stages, attempted,
      Route(catalog, router, record, t, stages, attempted), used)
  {
    hide Offer, Escalates;
    if stages == [] {
      used := [];
      NoStages(catalog, router, record, t, attempted);
    } else {
      var offer := Offer(catalog, router, t, stages[0], attempted);
      if offer.None? {
        var rest := RouteEscalates(catalog, router, record, t, stages[1..], attempted);
        used := Later(rest);
        SkipFirst(catalog, router, record, t, stages, attempted,
          Route(catalog, router, record, t, stages[1..], attempted), rest);
      } else if record(offer.value).ObservableFailure() {
        var rest := RouteEscalates(catalog, router, record, t, stages[1..], attempted + {offer.value.name});
        used := [0] + Later(rest);
        TryFirst(catalog, router, record, t, stages, attempted,
                 Route(catalog, router, record, t, stages[1..], attempted + {offer.value.name}), rest);
      } else {
        used := [0];
        SettleFirst(catalog, router, record, t, stages, attempted);
      }
    }
  }

  lemma NoStages<B>(catalog: seq<Model>, router: Router<B>, record: Record, t: Task, attempted: set<string>)
    ensures Escalates(catalog, router, record, t, [], attempted, [], [])
  {
  }

  lemma SettleFirst<B>(catalog: seq<Model>, router: Router<B>, record: Record, t: Task, stages: seq<Stage<B>>,
      attempted: set<string>)
    requires stages != [] && Offer(catalog, router, t, stages[0], attempted).Some?
    requires var m := Offer(catalog, router, t, stages[0], attempted).value; !record(m).ObservableFailure()
    ensures var m := Offer(catalog, router, t, stages[0], attempted).value;
      Escalates(catalog, router, record, t, stages, attempted, [Attempt(m, record(m))], [0])
  {
    hide Offer;
    var r := [Attempt(Offer(catalog, router, t, stages[0], attempted).value,
      record(Offer(catalog, router, t, stages[0], attempted).value))];
    assert attempted + Names(r, 0) == attempted;
    assert EscalatesAt(catalog, router, record, t, stages, attempted, r, [0], 0);
  }

  lemma SkippedLater<B>(catalog: seq<Model>, router: Router<B>, t: Task, stages: seq<Stage<B>>, from: nat, to: nat,
      tried: set<string>)
    requires stages != []
    ensures Skipped(catalog, router, t, stages[1..], from, to, tried)
      <==> Skipped(catalog, router, t, stages, from + 1, to + 1, tried)
  {
    hide Offer;
    assert forall k :: 0 <= k < |stages| - 1 ==> stages[1..][k] == stages[k + 1];
    if Skipped(catalog, router, t, stages[1..], from, to, tried) {
      forall k | from + 1 <= k < to + 1 ensures Offer(catalog, router, t, stages[k], tried).None? {
        assert stages[k] == stages[1..][k - 1];
      }
    }
  }

  /** A first stage that is offered nothing shifts the whole escalation by one. */
  lemma SkipFirst<B>(catalog: seq<Model>, router: Router<B>, record: Record, t: Task, stages: seq<Stage<B>>,
      attempted: set<string>,
      r: seq<Attempt>, rest: seq<nat>)
    requires stages != [] && Offer(catalog, router, t, stages[0], attempted).None?
    ensures Escalates(catalog, router, record, t, stages[1..], attempted, r, rest)
      <==> Escalates(catalog, router, record, t, stages, attempted, r, Later(rest))
  {
    hide Offer, EscalatesAt, Skipped;
    if |rest| == |r| {
      forall i | 0 <= i < |r|
        ensures EscalatesAt(catalog, router, record, t, stages[1..], attempted, r, rest, i)
          <==> EscalatesAt(catalog, router, record, t, stages, attempted, r, Later(rest), i)
      {
        SkipFirstAt(catalog, router, record, t, stages, attempted, r, rest, i);
      }
      SkipTail(catalog, router, t, stages, attempted, After(rest, |r|), |stages| - 1, attempted + Names(r, |r|));
      if r == [] { assert attempted + Names(r, 0) == attempted; }
    }
  }

  /** The gap before an attempt, seen from the stages after the first. */
  lemma SkipTail<B>(catalog: seq<Model>, router: Router<B>, t: Task, stages: seq<Stage<B>>, attempted: set<string>,
      from: nat, to: nat, tried: set<string>)
    requires stages != [] && Offer(catalog, router, t, stages[0], attempted).None?
    ensures Skipped(catalog, router, t, stages[1..], from, to, tried)
      <==> Skipped(catalog, router, t, stages, from + 1, to + 1, tried)
    ensures tried == attempted && from == 0 ==>
      (Skipped(catalog, router, t, stages[1..], 0, to, tried) <==>
       Skipped(catalog, router, t, stages, 0, to + 1, tried))
  {
    hide Offer;
    SkippedLater(catalog, router, t, stages, from, to, tried);
  }

  lemma SkipFirstAt<B>(catalog: seq<Model>, router: Router<B>, record: Record, t: Task, stages: seq<Stage<B>>,
      attempted: set<string>,
      r: seq<Attempt>, rest: seq<nat>, i: nat)
    requires stages != [] && Offer(catalog, router, t, stages[0], attempted).None? && |rest| == |r| && i < |r|
    ensures EscalatesAt(catalog, router, record, t, stages[1..], attempted, r, rest, i)
      <==> EscalatesAt(catalog, router, record, t, stages, attempted, r, Later(rest), i)
  {
    hide Offer, Skipped;
    SkipTail(catalog, router, t, stages, attempted, After(rest, i), rest[i], attempted + Names(r, i));
    if i == 0 { assert attempted + Names(r, 0) == attempted; }
  }

  lemma NamesOfCons(attempted: set<string>, a: Attempt, rest: seq<Attempt>, i: nat)
    requires i <= |rest|
    ensures attempted + Names([a] + rest, i + 1) == attempted + {a.model.name} + Names(rest, i)
  {
    var r := [a] + rest;
    assert forall k :: 0 <= k < |rest| ==> r[k + 1] == rest[k];
    forall n | n in Names(rest, i) ensures n in Names(r, i + 1) {
      var k :| 0 <= k < i && rest[k].model.name == n;
      assert r[k + 1].model.name == n;
    }
    assert r[0].model.name in Names(r, i + 1);
  }

  /** A first attempt that fails observably leaves the rest to the later stages. */
  lemma TryFirst<B>(catalog: seq<Model>, router: Router<B>, record: Record, t: Task, stages: seq<Stage<B>>,
      attempted: set<string>,
      rest: seq<Attempt>, later: seq<nat>)
    requires stages != [] && Offer(catalog, router, t, stages[0], attempted).Some?
    requires record(Offer(catalog, router, t, stages[0], attempted).value).ObservableFailure()
    ensures var m := Offer(catalog, router, t, stages[0], attempted).value;
      Escalates(catalog, router, record, t, stages[1..], attempted + {m.name}, rest, later)
      <==> Escalates(catalog, router, record, t, stages, attempted, [Attempt(m, record(m))] + rest, [0] + Later(later))
  {
    hide Offer, EscalatesAt, Skipped;
    var m := Offer(catalog, router, t, stages[0], attempted).value;
    var a := Attempt(m, record(m));
    var r, used := [a] + rest, [0] + Later(later);
    if |later| == |rest| {
      forall i | 0 <= i < |rest|
        ensures EscalatesAt(catalog, router, record, t, stages[1..], attempted + {m.name}, rest, later, i)
          <==> EscalatesAt(catalog, router, record, t, stages, attempted, r, used, i + 1)
      {
        TryFirstAt(catalog, router, record, t, stages, attempted, a, rest, later, i);
      }
      FirstAt(catalog, router, record, t, stages, attempted, a, rest, used);
      NamesOfCons(attempted, a, rest, |rest|);
      SkippedLater(catalog, router, t, stages, After(later, |rest|), |stages| - 1, attempted + Names(r, |r|));
      assert After(used, |r|) == After(later, |rest|) + 1;
      if Escalates(catalog, router, record, t, stages, attempted, r, used) {
        forall i | 0 <= i < |rest|
          ensures EscalatesAt(catalog, router, record, t, stages[1..], attempted + {m.name}, rest, later, i)
        {
          assert EscalatesAt(catalog, router, record, t, stages, attempted, r, used, i + 1);
        }
      }
      if Escalates(catalog, router, record, t, stages[1..], attempted + {m.name}, rest, later) {
        forall i | 0 <= i < |r| ensures EscalatesAt(catalog, router, record, t, stages, attempted, r, used, i) {
          if i > 0 {
            assert EscalatesAt(catalog, router, record, t, stages[1..], attempted + {m.name}, rest, later, i - 1);
          }
        }
      }
    }
  }

  lemma FirstAt<B>(catalog: seq<Model>, router: Router<B>, record: Record, t: Task, stages: seq<Stage<B>>,
      attempted: set<string>,
      a: Attempt, rest: seq<Attempt>, used: seq<nat>)
    requires stages != [] && |used| == |rest| + 1 && used[0] == 0
    requires Offer(catalog, router, t, stages[0], attempted) == Some(a.model) && a.outcome == record(a.model)
      && a.outcome.ObservableFailure()
    ensures EscalatesAt(catalog, router, record, t, stages, attempted, [a] + rest, used, 0)
  {
    hide Offer;
    assert attempted + Names([a] + rest, 0) == attempted;
  }

  lemma TryFirstAt<B>(catalog: seq<Model>, router: Router<B>, record: Record, t: Task, stages: seq<Stage<B>>,
      attempted: set<string>,
      a: Attempt, rest: seq<Attempt>, later: seq<nat>, i: nat)
    requires stages != [] && |later| == |rest| && i < |rest|
    ensures EscalatesAt(catalog, router, record, t, stages[1..], attempted + {a.model.name}, rest, later, i)
      <==> EscalatesAt(catalog, router, record, t, stages, attempted, [a] + rest, [0] + Later(later), i + 1)
  {
    hide Offer, Skipped;
    NamesOfCons(attempted, a, rest, i);
    SkippedLater(catalog, router, t, stages, After(later, i), later[i], attempted + Names([a] + rest, i + 1));
    assert After([0] + Later(later), i + 1) == After(later, i) + 1;
  }

  /** An escalation is determined by the stages: there is no other. */
  lemma {:induction false} EscalatesRoute<B>(catalog: seq<Model>, router: Router<B>, record: Record, t: Task,
      stages: seq<Stage<B>>, attempted: set<string>,
      r: seq<Attempt>, used: seq<nat>)
    requires Escalates(catalog, router, record, t, stages, attempted, r, used)
    ensures r == Route(catalog, router, record, t, stages, attempted)
  {
    hide Offer, EscalatesAt, Skipped;
    if stages != [] {
      var offer := Offer(catalog, router, t, stages[0], attempted);
      if offer.None? {
        var rest := Earlier(catalog, router, record, t, stages, attempted, r, used);
        SkipFirst(catalog, router, record, t, stages, attempted, r, rest);
        EscalatesRoute(catalog, router, record, t, stages[1..], attempted, r, rest);
      } else {
        var rest := OpensWithOffer(catalog, router, record, t, stages, attempted, r, used);
        if r[0].outcome.ObservableFailure() {
          assert r == [r[0]] + r[1..];
          TryFirst(catalog, router, record, t, stages, attempted, r[1..], rest);
          EscalatesRoute(catalog, router, record, t, stages[1..], attempted + {offer.value.name}, r[1..], rest);
        }
      }
    } else {
      AttemptsNeedStages(catalog, router, record, t, stages, attempted, r, used);
    }
  }

  lemma AttemptsNeedStages<B>(catalog: seq<Model>, router: Router<B>, record: Record, t: Task, stages: seq<Stage<B>>,
      attempted: set<string>,
      r: seq<Attempt>, used: seq<nat>)
    requires Escalates(catalog, router, record, t, stages, attempted, r, used)
    ensures r != [] ==> stages != []
  {
    if r != [] { assert EscalatesAt(catalog, router, record, t, stages, attempted, r, used, 0); }
  }

  /** Nothing offered first: every attempt was made later. */
  lemma Earlier<B>(catalog: seq<Model>, router: Router<B>, record: Record, t: Task, stages: seq<Stage<B>>,
      attempted: set<string>,
      r: seq<Attempt>, used: seq<nat>) returns (rest: seq<nat>)
    requires stages != [] && Offer(catalog, router, t, stages[0], attempted).None?
    requires Escalates(catalog, router, record, t, stages, attempted, r, used)
    ensures Later(rest) == used
  {
    hide Offer, Skipped;
    forall i | 0 <= i < |used| ensures used[i] >= 1 {
      assert EscalatesAt(catalog, router, record, t, stages, attempted, r, used, i);
      if i == 0 { assert attempted + Names(r, 0) == attempted; }
    }
    rest := seq(|used|, i requires 0 <= i < |used| => used[i] - 1);
  }

  /** Something offered first: it was the first attempt, and if it settled the task the only one. */
  lemma OpensWithOffer<B>(catalog: seq<Model>, router: Router<B>, record: Record, t: Task, stages: seq<Stage<B>>,
      attempted: set<string>,
      r: seq<Attempt>, used: seq<nat>) returns (rest: seq<nat>)
    requires stages != [] && Offer(catalog, router, t, stages[0], attempted).Some?
    requires Escalates(catalog, router, record, t, stages, attempted, r, used)
    ensures r != []
    ensures r[0] == Attempt(Offer(catalog, router, t, stages[0], attempted).value,
      record(Offer(catalog, router, t, stages[0], attempted).value))
    ensures used == [0] + Later(rest) && (!r[0].outcome.ObservableFailure() ==> |r| == 1)
  {
    hide Offer;
    assert attempted + Names(r, 0) == attempted;
    assert r != [];
    assert EscalatesAt(catalog, router, record, t, stages, attempted, r, used, 0);
    assert used[0] == 0;
    forall i | 0 < i < |used| ensures used[i] >= 1 {
      assert EscalatesAt(catalog, router, record, t, stages, attempted, r, used, i);
    }
    rest := seq(|used| - 1, i requires 0 <= i < |used| - 1 => used[i + 1] - 1);
    assert forall i :: 0 < i < |used| ==> used[i] == ([0] + Later(rest))[i];
  }

  /** Two ways for attempts to come out that the egress cannot tell apart. */
  ghost predicate LooksAlike(a: Record, b: Record) {
    forall m :: a(m).ObservableFailure() <==> b(m).ObservableFailure()
  }

  lemma {:induction false} RouteIgnoresHidden<B>(catalog: seq<Model>, router: Router<B>, a: Record, b: Record, t: Task,
      stages: seq<Stage<B>>, attempted: set<string>)
    requires LooksAlike(a, b)
    ensures Models(Route(catalog, router, a, t, stages, attempted))
      == Models(Route(catalog, router, b, t, stages, attempted))
  {
    if stages != [] {
      var offer := Offer(catalog, router, t, stages[0], attempted);
      var tried := if offer.None? then attempted else attempted + {offer.value.name};
      RouteIgnoresHidden(catalog, router, a, b, t, stages[1..], tried);
      ModelsOfCons(catalog, router, a, t, stages, attempted);
      ModelsOfCons(catalog, router, b, t, stages, attempted);
    }
  }

  lemma ModelsOfCons<B>(catalog: seq<Model>, router: Router<B>, record: Record, t: Task, stages: seq<Stage<B>>,
      attempted: set<string>)
    requires stages != []
    ensures var offer := Offer(catalog, router, t, stages[0], attempted);
      Models(Route(catalog, router, record, t, stages, attempted)) ==
        if offer.None? then Models(Route(catalog, router, record, t, stages[1..], attempted))
        else if record(offer.value).ObservableFailure()
        then [offer.value] + Models(Route(catalog, router, record, t, stages[1..], attempted + {offer.value.name}))
        else [offer.value]
  {
    hide Models, Offer;
    var offer := Offer(catalog, router, t, stages[0], attempted);
    if offer.Some? {
      var head := Attempt(offer.value, record(offer.value));
      ModelsCons(head, []);
      assert [head] + [] == [head] && Models([]) == [];
      if head.outcome.ObservableFailure() {
        ModelsCons(head, Route(catalog, router, record, t, stages[1..], attempted + {offer.value.name}));
      }
    }
  }

  lemma ModelsCons(a: Attempt, rest: seq<Attempt>)
    ensures Models([a] + rest) == [a.model] + Models(rest)
  {
  }

  // ---- The driver ----------------------------------------------------------------------------------------------

  /** The rows by task id; a later row replaces an earlier one. */
  function Rows(corpus: seq<TaskCase>): map<string, TaskCase> {
    if corpus == [] then map[]
    else Rows(corpus[..|corpus| - 1])[corpus[|corpus| - 1].task.id := corpus[|corpus| - 1]]
  }

  lemma {:induction false} RowsCover(corpus: seq<TaskCase>, i: nat)
    requires i < |corpus|
    ensures corpus[i].task.id in Rows(corpus)
    ensures forall id :: id in Rows(corpus) ==> Rows(corpus)[id] in corpus && Rows(corpus)[id].task.id == id
  {
    var n := |corpus| - 1;
    if n > 0 {
      RowsCover(corpus[..n], if i < n then i else 0);
    }
  }

  /** Rows that differ in difficulty alone. */
  ghost predicate SameTasks(a: seq<TaskCase>, b: seq<TaskCase>) {
    |a| == |b| && forall i :: 0 <= i < |a| ==> a[i].task == b[i].task
  }

  lemma {:induction false} RowsAgree(a: seq<TaskCase>, b: seq<TaskCase>)
    requires SameTasks(a, b)
    ensures Rows(a).Keys == Rows(b).Keys && forall id :: id in Rows(a) ==> Rows(a)[id].task == Rows(b)[id].task
  {
    if a != [] { RowsAgree(a[..|a| - 1], b[..|b| - 1]); }
  }

  /** _record: the row with the task's id is simulated. */
  function RecordOf(corpus: seq<TaskCase>, id: string, s: Scenario, pressure: Pressure, draws: Draws,
      pricing: Pricing): Record
    requires id in Rows(corpus)
  {
    var c := Rows(corpus)[id];
    m => SimulateAttempt(c, m, s, pressure, draws, pricing)
  }

  /** The composed record of one task. */
  datatype TaskResult = TaskResult(taskId: string, attempts: seq<Attempt>, routed: bool)

  /** How a policy routes the i-th task of a corpus. */
  function Routed<B>(catalog: seq<Model>, router: Router<B>, stagesOf: Task -> seq<Stage<B>>, corpus: seq<TaskCase>,
      s: Scenario, pressure: Pressure, draws: Draws, pricing: Pricing, i: nat): TaskResult
    requires i < |corpus|
  {
    RowsCover(corpus, i);
    var t := corpus[i].task;
    var attempts := Route(catalog, router, RecordOf(corpus, t.id, s, pressure, draws, pricing), t, stagesOf(t), {});
    TaskResult(t.id, attempts, attempts != [])
  }

  /** Corpora that agree on every observable field, with any difficulties and any outcome draws, send every task through
      the same models in the same order, under any policy whose stages depend on the task alone. */
  lemma HiddenDifficultyDoesNotRoute<B>(catalog: seq<Model>, router: Router<B>, stagesOf: Task -> seq<Stage<B>>,
      a: seq<TaskCase>, b: seq<TaskCase>, s: Scenario, pressure: Pressure, drawsA: Draws, drawsB: Draws,
        pricing: Pricing, i: nat)
    requires SameTasks(a, b) && i < |a|
    ensures var ra := Routed(catalog, router, stagesOf, a, s, pressure, drawsA, pricing, i);
      var rb := Routed(catalog, router, stagesOf, b, s, pressure, drawsB, pricing, i);
      Models(ra.attempts) == Models(rb.attempts) && ra.routed == rb.routed
  {
    var t := a[i].task;
    RowsCover(a, i);
    RowsCover(b, i);
    RowsAgree(a, b);
    var ra, rb := RecordOf(a, t.id, s, pressure, drawsA, pricing), RecordOf(b, t.id, s, pressure, drawsB, pricing);
    forall m ensures ra(m).ObservableFailure() <==> rb(m).ObservableFailure() {
      ObservableFailureExactly(Rows(a)[t.id], m, s, pressure, drawsA, pricing);
      ObservableFailureExactly(Rows(b)[t.id], m, s, pressure, drawsB, pricing);
    }
    RouteIgnoresHidden(catalog, router, ra, rb, t, stagesOf(t), {});
    assert |Models(Routed(catalog, router, stagesOf, a, s, pressure, drawsA, pricing, i).attempts)|
        == |Models(Routed(catalog, router, stagesOf, b, s, pressure, drawsB, pricing, i).attempts)|;
  }

  // ---- In place ----------------------------------------------------------------------------------------------------

  class FleetPolicy<Budget(==,!new)> {
    const catalog: seq<Model>
    const router: Router<Budget>
    const stagesOf: Task -> seq<Stage<Budget>>
    var routeFailures: nat

    constructor (catalog: seq<Model>, router: Router<Budget>, stagesOf: Task -> seq<Stage<Budget>>)
      ensures this.catalog == catalog && this.router == router && this.stagesOf == stagesOf && routeFailures == 0
    {
      this.catalog, this.router, this.stagesOf, routeFailures := catalog, router, stagesOf, 0;
    }

    method ScopedNames(t: Task, st: Stage<Budget>, exclude: set<string>) returns (names: seq<string>)
      ensures names == Scope(catalog, t, st, exclude)
    {
      names := [];
      for k := 0 to |catalog|
        invariant names == Scope(catalog[..k], t, st, exclude)
      {
        var m := catalog[k];
        assert catalog[..k + 1][..k] == catalog[..k];
        if m.name in exclude { continue; }
        if st.providers.Some? && m.provider !in st.providers.value { continue; }
        if st.tierFilter.Some? && m.tier !in st.tierFilter.value { continue; }
        if st.requireFit && m.maxTokens < Demand(t) { continue; }
        if st.requireReasoning && !m.reasoningCapable { continue; }
        names := names + [m.name];
      }
      assert catalog[..|catalog|] == catalog;
    }

    method RunTask(t: Task, record: Record) returns (r: TaskResult)
      modifies this
      ensures r.taskId == t.id && r.attempts == Route(catalog, router, record, t, stagesOf(t), {})
      ensures r.routed <==> r.attempts != []
      ensures routeFailures == old(routeFailures) + if r.routed then 0 else 1
    {
      var stages, attempts, attempted: set<string> := stagesOf(t), [], {};
      for k := 0 to |stages|
        invariant routeFailures == old(routeFailures)
        invariant Route(catalog, router, record, t, stages, {})
          == attempts + Route(catalog, router, record, t, stages[k..], attempted)
      {
        assert stages[k..][1..] == stages[k + 1..];
        var scope := ScopedNames(t, stages[k], attempted);
        if scope == [] { continue; }
        var chosen := router(t.taskType, stages[k].budget, scope);
        if chosen.None? { continue; }
        var attempt := Attempt(chosen.value, record(chosen.value));
        attempts := attempts + [attempt];
        if !attempt.outcome.ObservableFailure() {
          return TaskResult(t.id, attempts, true);
        }
        attempted := attempted + {chosen.value.name};
      }
      if attempts == [] { routeFailures := routeFailures + 1; }
      r := TaskResult(t.id, attempts, attempts != []);
    }

    /** route_all: every task in corpus order, each against the rows of the corpus. */
    method RouteAll(corpus: seq<TaskCase>, s: Scenario, pressure: Pressure, draws: Draws, pricing: Pricing)
      returns (results: seq<TaskResult>)
      modifies this
      ensures |results| == |corpus|
      ensures forall i :: 0 <= i < |corpus| ==>
        results[i] == Routed(catalog, router, stagesOf, corpus, s, pressure, draws, pricing, i)
      ensures routeFailures == old(routeFailures) + Unrouted(results)
    {
      hide Route;
      results := [];
      for k := 0 to |corpus|
        invariant |results| == k
        invariant forall i :: 0 <= i < k ==>
          results[i] == Routed(catalog, router, stagesOf, corpus, s, pressure, draws, pricing, i)
        invariant routeFailures == old(routeFailures) + Unrouted(results)
      {
        RowsCover(corpus, k);
        var one := RunTask(corpus[k].task, RecordOf(corpus, corpus[k].task.id, s, pressure, draws, pricing));
        assert (results + [one])[..k] == results;
        results := results + [one];
      }
    }
  }

  function Unrouted(results: seq<TaskResult>): nat {
    if results == [] then 0 else Unrouted(results[..|results| - 1]) + if results[|results| - 1].routed then 0 else 1
  }

  // ---- The shipped compositions ---------------------------------------------------------------------------------

  /** A stage is offered only models it scopes to, so one that requires a fit never meets the capacity wall
      and a fitted local stage never fails over at all. */
  lemma FittedStageFailsOnRateLimitOnly<B(!new)>(catalog: seq<Model>, router: Router<B>, c: TaskCase, st: Stage<B>,
      attempted: set<string>,
      s: Scenario, pressure: Pressure, draws: Draws, pricing: Pricing)
    requires Seam(catalog, router) && NamesIdentify(catalog) && Offer(catalog, router, c.task, st, attempted).Some?
    ensures var m := Offer(catalog, router, c.task, st, attempted).value;
      var o := SimulateAttempt(c, m, s, pressure, draws, pricing);
      && InScope(m, c.task, st, attempted)
      && (st.requireFit ==> o.kind != Capacity)
      && (st.requireFit && st.providers == Some(LOCAL) ==> !o.ObservableFailure())
  {
    var m := Offer(catalog, router, c.task, st, attempted).value;
    ScopeExactly(catalog, c.task, st, attempted, m.name);
    ObservableFailureExactly(c, m, s, pressure, draws, pricing);
  }

  /** The scoped fleets make one attempt at most and only inside their providers; local-first settles every easy task
      for which the router finds a fitting local model in one local attempt. */
  lemma ShippedCompositions<B(!new)>(p: Policy, catalog: seq<Model>, router: Router<B>, c: TaskCase,
      s: Scenario, pressure: Pressure, draws: Draws, pricing: Pricing)
    requires Seam(catalog, router) && NamesIdentify(catalog)
    ensures var r := Route(catalog, router, m => SimulateAttempt(c, m, s, pressure, draws, pricing), c.task,
      Stages(p, c.task), {});
      && (p.Scoped? ==> |r| <= 1 && forall a :: a in r ==> a.model.provider in p.providers)
      && (p.MixedLocalFirst? && !c.task.reasoningRequired && c.task.taskType !in HARD_CLASSES
          && Offer(catalog, router, c.task, Stages(p, c.task)[0], {}).Some?
          ==> |r| == 1 && r[0].model.provider in LOCAL && Demand(c.task) <= r[0].model.maxTokens)
  {
    hide SimulateAttempt, Offer;
    var stages, record: Record := Stages<B>(p, c.task), m => SimulateAttempt(c, m, s, pressure, draws, pricing);
    var offer, r := Offer(catalog, router, c.task, stages[0], {}), Route(catalog, router, record, c.task, stages, {});
    if offer.Some? {
      FittedStageFailsOnRateLimitOnly(catalog, router, c, stages[0], {}, s, pressure, draws, pricing);
      assert r[0] == Attempt(offer.value, record(offer.value));
      assert !r[0].outcome.ObservableFailure() ==> r == [r[0]];
    }
    if p.Scoped? { OneStage(catalog, router, record, c.task, stages[0]); }
  }

  lemma OneStage<B>(catalog: seq<Model>, router: Router<B>, record: Record, t: Task, st: Stage<B>)
    ensures var offer := Offer(catalog, router, t, st, {});
      Route(catalog, router, record, t, [st], {})
        == if offer.None? then [] else [Attempt(offer.value, record(offer.value))]
  {
    hide Offer;
    assert [st][1..] == [];
    var offer := Offer(catalog, router, t, st, {});
    if offer.Some? { assert Route(catalog, router, record, t, [], {offer.value.name}) == []; }
  }

  // ---- The oracle ---------------------------------------------------------------------------------------------------

  /** max(available, key=utility): the first model of greatest realized utility. */
  function Best(models: seq<Model>, utility: Model -> real): (m: Model)
    requires models != []
    ensures m in models && forall x :: x in models ==> utility(x) <= utility(m)
    ensures exists i ::
      0 <= i < |models| && models[i] == m && forall j :: 0 <= j < i ==> utility(models[j]) < utility(m)
  {
    if |models| == 1 then models[0]
    else
      var init, z := Best(models[..|models| - 1], utility), models[|models| - 1];
      assert models == models[..|models| - 1] + [z];
      if utility(z) > utility(init) then z else init
  }

  function Adequate(catalog: seq<Model>, t: Task, available: string -> bool): (ms: seq<Model>)
    ensures forall m :: m in ms <==> m in catalog && available(m.name) && m.maxTokens >= Demand(t)
  {
    if catalog == [] then []
    else
      var rest, m := Adequate(catalog[..|catalog| - 1], t, available), catalog[|catalog| - 1];
      assert catalog == catalog[..|catalog| - 1] + [m];
      if available(m.name) && m.maxTokens >= Demand(t) then rest + [m] else rest
  }

  function OracleChoice(catalog: seq<Model>, c: TaskCase, available: string -> bool, s: Scenario, pressure: Pressure,
      draws: Draws, pricing: Pricing): Option<Model> {
    var ms := Adequate(catalog, c.task, available);
    if ms == [] then None else Some(Best(ms,
      (m: Model) => SimulateAttempt(c, m, s, pressure, draws, pricing).Utility()))
  }

  ghost predicate Leaks(catalog: seq<Model>, a: TaskCase, b: TaskCase, pressure: Pressure, draws: Draws,
      pricing: Pricing) {
    && a.task == b.task
    && OracleChoice(catalog, a, _ => true, AllAvailable, pressure, draws, pricing)
       != OracleChoice(catalog, b, _ => true, AllAvailable, pressure, draws, pricing)
  }

  /** The positive control: the oracle does react to hidden difficulty. */
  lemma OracleLeaks(pressure: Pressure)
    ensures exists catalog, a, b, draws, pricing :: Leaks(catalog, a, b, pressure, draws, pricing)
  {
    hide SimulateAttempt, OracleChoice, SuccessP;
    var fast, strong := Model("gpt-3.5-turbo", "openai", Fast, 400.0, false, 4096),
      Model("claude-3-opus", "anthropic", Powerful, 800.0, true, 200000);
    var t := Task("chat-00000", "chat", 0, 100, false, false, 1500.0);
    var catalog, easy, hard := [fast, strong], TaskCase(t, 0.0), TaskCase(t, 1.0);
    var draws: Draws, pricing: Pricing := (_, _, _) => 0.5, (_, _, _) => 0.0;
    HardForFast(t, fast, strong);
    HalfDrawn(easy, fast, pressure);
    HalfDrawn(easy, strong, pressure);
    HalfDrawn(hard, fast, pressure);
    HalfDrawn(hard, strong, pressure);
    PicksBetter(catalog, easy, fast, strong, pressure, draws, pricing);
    PicksBetter(catalog, hard, strong, fast, pressure, draws, pricing);
    assert Leaks(catalog, easy, hard, pressure, draws, pricing);
  }

  lemma HardForFast(t: Task, fast: Model, strong: Model)
    requires !t.reasoningRequired && !t.toolUse && fast.tier == Fast && strong.tier == Powerful
    ensures SuccessP(TaskCase(t, 0.0), fast) == 0.92 && SuccessP(TaskCase(t, 0.0), strong) == 0.97
    ensures SuccessP(TaskCase(t, 1.0), fast) == 0.335 && SuccessP(TaskCase(t, 1.0), strong) == 0.88
  {
  }

  lemma PicksBetter(catalog: seq<Model>, c: TaskCase, good: Model, bad: Model, pressure: Pressure, draws: Draws,
      pricing: Pricing)
    requires good in catalog && forall m :: m in catalog ==> m == good || m == bad
    requires Demand(c.task) <= good.maxTokens
    requires SimulateAttempt(c, good, AllAvailable, pressure, draws, pricing).Utility()
      > SimulateAttempt(c, bad, AllAvailable, pressure, draws, pricing).Utility()
    ensures OracleChoice(catalog, c, _ => true, AllAvailable, pressure, draws, pricing) == Some(good)
  {
    hide SimulateAttempt;
    assert good in Adequate(catalog, c.task, _ => true);
  }

  /** An attempt on a task without context that fits, with every draw at one half and nothing charged. */
  lemma HalfDrawn(c: TaskCase, m: Model, pressure: Pressure)
    requires c.task.contextTokens == 0 && Demand(c.task) <= m.maxTokens
    ensures SimulateAttempt(c, m, AllAvailable, pressure, (_, _, _) => 0.5, (_, _, _) => 0.0).Utility()
      == (if 0.5 < SuccessP(c, m) then 1.0 else -0.25) - 0.0002 * m.latencyP50
  {
    hide SuccessP, Truncate;
    var o := SimulateAttempt(c, m, AllAvailable, pressure, (_, _, _) => 0.5, (_, _, _) => 0.0);
    assert 0 as real / 50000.0 == 0.0;
    assert o.latency == m.latencyP50 * 1.0 * 1.0;
    assert o.success <==> 0.5 < SuccessP(c, m);
  }
}
