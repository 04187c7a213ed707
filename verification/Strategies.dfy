/** Delivery strategies over one outcome schedule, and the settlement of their calls. */
module Strategies {
  import opened Order
  import opened Wrappers

  /** What one candidate call comes to. */
  datatype Outcome = Outcome(latency: real, acceptable: bool, transientFailure: bool, trueScore: real, noisyScore: real)

  /** The outcome of every candidate for one task. */
  type Schedule = string -> Outcome

  // ---- The schedule ----------------------------------------------------------------------------------------

  datatype Spec = Spec(name: string, provider: string, latency: real, passRate: real, qualityMean: real)

  const OUTAGE_PERIOD: nat := 7

  function Clamp(x: real): real { if x < 0.0 then 0.0 else if x > 1.0 then 1.0 else x }

  predicate OutageHits(specs: seq<Spec>, task: nat, provider: string)
    requires specs != []
  {
    task % OUTAGE_PERIOD == 0 && specs[(task / OUTAGE_PERIOD) % |specs|].provider == provider
  }

  /** make_outcome_schedule, with u the uniform draws by tag. */
  function Scheduled(specs: seq<Spec>, spec: Spec, task: nat, u: string -> real): Outcome
    requires specs != []
  {
    var transient := u("failure") < 0.02 || OutageHits(specs, task, spec.provider);
    var acceptable := !transient && u("pass") < spec.passRate;
    var score := Clamp(if acceptable then spec.qualityMean * (0.85 + 0.3 * u("quality"))
      else spec.qualityMean * 0.4 * u("quality"));
    Outcome(spec.latency * (0.6 + 0.8 * u("latency")), acceptable, transient, score,
      Clamp(score + (u("verifier") - 0.5) * 0.2))
  }

  /** What the strategies rely on in an outcome. */
  ghost predicate Physical(o: Outcome) {
    && o.latency > 0.0 && (o.acceptable ==> !o.transientFailure)
    && -0.1 <= o.noisyScore - o.trueScore <= 0.1
  }

  lemma ScheduleIsPhysical(specs: seq<Spec>, spec: Spec, task: nat, u: string -> real)
    requires specs != [] && spec.latency > 0.0 && forall tag :: 0.0 <= u(tag) < 1.0
    ensures Physical(Scheduled(specs, spec, task, u))
  {
    Stretched(spec.latency, u("latency"));
    var noise := (u("verifier") - 0.5) * 0.2;
    assert -0.1 <= noise <= 0.1;
  }

  /** Who fails, and who is acceptable: every seventh task one provider, in turn, fails all its calls; any other call
      fails on a draw below 0.02, and a call that did not fail is acceptable on a draw below the pass rate. */
  lemma ScheduleFails(specs: seq<Spec>, spec: Spec, task: nat, u: string -> real)
    requires specs != []
    ensures var o := Scheduled(specs, spec, task, u);
      && (o.transientFailure <==>
        u("failure") < 0.02 || exists n: nat :: task == 7 * n && spec.provider == specs[n % |specs|].provider)
      && (o.acceptable <==> !o.transientFailure && u("pass") < spec.passRate)
  {
    assert task % 7 == 0 ==> task == 7 * (task / 7);
    forall n: nat | task == 7 * n ensures task % 7 == 0 && task / 7 == n {}
  }

  /** Latency and scores follow their draws: at the middle they are the model's own, or a fifth of its quality for an
      answer that is not acceptable, seen without noise; at the bottom 0.6 and 0.85 of it, or nothing, seen 0.1
      worse. */
  lemma ScheduleFollowsDraws(specs: seq<Spec>, spec: Spec, task: nat, u: string -> real)
    requires specs != [] && 0.0 <= spec.qualityMean <= 1.0
    ensures var o := Scheduled(specs, spec, task, u);
      && (u("latency") == 0.5 ==> o.latency == spec.latency)
      && (u("latency") == 0.0 ==> o.latency == 0.6 * spec.latency)
      && (u("quality") == 0.5 ==> o.trueScore == if o.acceptable then spec.qualityMean else 0.2 * spec.qualityMean)
      && (u("quality") == 0.0 ==> o.trueScore == if o.acceptable then 0.85 * spec.qualityMean else 0.0)
      && (u("verifier") == 0.5 ==> o.noisyScore == o.trueScore)
      && (u("verifier") == 0.0 ==> o.noisyScore == if o.trueScore < 0.1 then 0.0 else o.trueScore - 0.1)
  {
    hide OutageHits;
  }

  lemma Stretched(latency: real, u: real)
    requires latency > 0.0 && 0.0 <= u
    ensures latency * (0.6 + 0.8 * u) > 0.0
  {
  }

  // ---- Strategies ---------------------------------------------------------------------------------------------

  /** effect_key, the task given in decimal. */
  function EffectKey(prefix: string, task: string, model: string): string {
    "spec:" + prefix + ":" + task + ":" + model
  }

  /** Under one label no two calls share a key, since a task number holds no colon. */
  lemma EffectKeyIdentifies(prefix: string, t: string, m: string, t': string, m': string)
    requires ':' !in t && ':' !in t' && EffectKey(prefix, t, m) == EffectKey(prefix, t', m')
    ensures t == t' && m == m'
  {
    var lead := "spec:" + prefix + ":";
    assert EffectKey(prefix, t, m) == lead + (t + ":" + m) && EffectKey(prefix, t', m') == lead + (t' + ":" + m');
    assert (lead + (t + ":" + m))[|lead|..] == t + ":" + m && (lead + (t' + ":" + m'))[|lead|..] == t' + ":" + m';
    FirstColon(t, m, t', m');
  }

  lemma FirstColon(t: string, m: string, t': string, m': string)
    requires ':' !in t && ':' !in t' && t + ":" + m == t' + ":" + m'
    ensures t == t' && m == m'
  {
    FirstColonAt(t, m);
    FirstColonAt(t', m');
    assert |t| == |t'|;
    var s := t + ":" + m;
    assert s[..|t|] == t && s[..|t'|] == t' && s[|t| + 1..] == m && s[|t'| + 1..] == m';
  }

  lemma FirstColonAt(t: string, m: string)
    requires ':' !in t
    ensures (t + ":" + m)[|t|] == ':' && forall i :: 0 <= i < |t| ==> (t + ":" + m)[i] != ':'
  {
  }

  datatype Delivery = Delivery(success: bool, latency: real, score: real, verifierError: bool, winner: Option<string>)

  /** The serial chain from some time spent on. */
  function Cascade(chain: seq<string>, o: Schedule, spent: real): Delivery {
    if chain == [] then Delivery(false, spent, 0.0, false, None)
    else
      var x := o(chain[0]);
      if x.acceptable then Delivery(true, spent + x.latency, x.trueScore, false, Some(chain[0]))
      else Cascade(chain[1..], o, spent + x.latency)
  }

  method RunCascade(chain: seq<string>, o: Schedule) returns (r: Delivery)
    ensures r == Cascade(chain, o, 0.0)
  {
    var spent := 0.0;
    for k := 0 to |chain|
      invariant Cascade(chain, o, 0.0) == Cascade(chain[k..], o, spent)
    {
      assert chain[k..][1..] == chain[k + 1..];
      var x := o(chain[k]);
      spent := spent + x.latency;
      if x.acceptable {
        return Delivery(true, spent, x.trueScore, false, Some(chain[k]));
      }
    }
    r := Delivery(false, spent, 0.0, false, None);
  }

  function Filter(models: seq<string>, keep: string -> bool): (r: seq<string>)
    ensures forall m :: m in r <==> m in models && keep(m)
  {
    if models == [] then []
    else
      var rest, z := Filter(models[..|models| - 1], keep), models[|models| - 1];
      assert models == models[..|models| - 1] + [z];
      if keep(z) then rest + [z] else rest
  }

  /** min by latency, then by name. */
  function Earliest(models: seq<string>, o: Schedule): (m: string)
    requires models != []
    ensures m in models
    ensures forall x :: x in models ==> o(m).latency < o(x).latency || (o(m).latency == o(x).latency && !LexLess(x, m))
  {
    if |models| == 1 then LexIrreflexive(models[0]); models[0]
    else
      var best, z := Earliest(models[..|models| - 1], o), models[|models| - 1];
      assert models == models[..|models| - 1] + [z];
      EarlierStill(models[..|models| - 1], o, best, z);
      if o(z).latency < o(best).latency || (o(z).latency == o(best).latency && LexLess(z, best)) then z else best
  }

  lemma EarlierStill(models: seq<string>, o: Schedule, best: string, z: string)
    requires forall x :: x in models ==>
      o(best).latency < o(x).latency || (o(best).latency == o(x).latency && !LexLess(x, best))
    ensures !LexLess(z, z)
    ensures LexLess(z, best) ==> forall x :: x in models && o(x).latency == o(best).latency ==> !LexLess(x, z)
  {
    LexIrreflexive(z);
    if LexLess(z, best) {
      forall x | x in models && o(x).latency == o(best).latency ensures !LexLess(x, z) {
        if LexLess(x, z) { LexTransitive(x, z, best); }
      }
    }
  }

  /** max by noisy score. */
  function Favourite(models: seq<string>, o: Schedule): (m: string)
    requires models != []
    ensures m in models
    ensures forall x :: x in models ==>
      o(x).noisyScore < o(m).noisyScore || (o(x).noisyScore == o(m).noisyScore && !LexLess(m, x))
  {
    if |models| == 1 then LexIrreflexive(models[0]); models[0]
    else
      var best, z := Favourite(models[..|models| - 1], o), models[|models| - 1];
      assert models == models[..|models| - 1] + [z];
      BetterStill(models[..|models| - 1], o, best, z);
      if o(best).noisyScore < o(z).noisyScore
        || (o(best).noisyScore == o(z).noisyScore && LexLess(best, z)) then z else best
  }

  lemma BetterStill(models: seq<string>, o: Schedule, best: string, z: string)
    requires forall x :: x in models ==>
      o(x).noisyScore < o(best).noisyScore || (o(x).noisyScore == o(best).noisyScore && !LexLess(best, x))
    ensures !LexLess(z, z)
    ensures LexLess(best, z) ==> forall x :: x in models && o(x).noisyScore == o(best).noisyScore ==> !LexLess(z, x)
  {
    LexIrreflexive(z);
    if LexLess(best, z) {
      forall x | x in models && o(x).noisyScore == o(best).noisyScore ensures !LexLess(z, x) {
        if LexLess(z, x) { LexTransitive(best, z, x); }
      }
    }
  }

  /** The greatest value over some models. */
  function Greatest(models: seq<string>, f: string -> real): (v: real)
    requires models != []
    ensures (forall m :: m in models ==> f(m) <= v) && exists m :: m in models && f(m) == v
  {
    if |models| == 1 then assert models[0] in models; f(models[0])
    else
      var best, z := Greatest(models[..|models| - 1], f), models[|models| - 1];
      assert models == models[..|models| - 1] + [z];
      assert z in models;
      if best < f(z) then f(z) else best
  }

  /** run_early_stop; without candidates there is no latest call to wait for, which raises. */
  function EarlyStop(models: seq<string>, o: Schedule): Option<Delivery> {
    var acceptable := Filter(models, m => o(m).acceptable);
    if acceptable != [] then
      var winner := Earliest(acceptable, o);
      Some(Delivery(true, o(winner).latency, o(winner).trueScore, false, Some(winner)))
    else if models == [] then None
    else Some(Delivery(false, Greatest(models, m => o(m).latency), 0.0, false, None))
  }

  /** run_verifier, given which calls answered rather than raised. */
  function Verifier(models: seq<string>, o: Schedule, answered: string -> bool): Option<Delivery> {
    if models == [] then None
    else
      var latency, acceptable := Greatest(models, m => o(m).latency),
        Filter(models, m => answered(m) && o(m).acceptable);
      if acceptable == [] then Some(Delivery(false, latency, 0.0, false, None))
      else
        var picked, best := Favourite(acceptable, o), Greatest(acceptable, m => o(m).trueScore);
        Some(Delivery(true, latency, o(picked).trueScore, o(picked).trueScore < best - 0.000000000001, Some(picked)))
  }

  // ---- What is delivered ------------------------------------------------------------------------------------

  /** A delivery names the candidate it comes from and carries its true score, or carries nothing. */
  ghost predicate Honest(models: seq<string>, o: Schedule, r: Delivery) {
    if r.success then r.winner.Some? && r.winner.value in models && o(r.winner.value).acceptable
      && r.score == o(r.winner.value).trueScore
    else r.winner == None && r.score == 0.0 && !r.verifierError
  }

  lemma {:induction false} CascadeHonest(chain: seq<string>, o: Schedule, spent: real)
    ensures Honest(chain, o, Cascade(chain, o, spent)) && !Cascade(chain, o, spent).verifierError
    ensures !Cascade(chain, o, spent).success ==> Cascade(chain, o, spent).latency == spent + Total(chain, o)
  {
    if chain != [] {
      assert chain == [chain[0]] + chain[1..];
      CascadeHonest(chain[1..], o, spent + o(chain[0]).latency);
    }
  }

  /** Early stop delivers the first acceptable answer to arrive, ties by name, when it arrives, or nothing once the
      slowest call is back. */
  lemma EarlyStopDelivers(models: seq<string>, o: Schedule)
    requires models != []
    ensures EarlyStop(models, o).Some?
    ensures var r := EarlyStop(models, o).value;
      && Honest(models, o, r) && !r.verifierError
      && (r.success ==> r.latency == o(r.winner.value).latency && forall m :: m in models && o(m).acceptable ==>
        r.latency < o(m).latency || (r.latency == o(m).latency && !LexLess(m, r.winner.value)))
      && (!r.success ==> forall m :: m in models ==> !o(m).acceptable && o(m).latency <= r.latency)
      && (!r.success ==> exists m :: m in models && o(m).latency == r.latency)
  {
    FilterSome(models, m => o(m).acceptable);
  }

  /** The verifier waits for the slowest call, and delivers the acceptable answer it takes for the best, ties by name;
      it errs when that answer is truly worse than another. */
  lemma VerifierDelivers(models: seq<string>, o: Schedule, answered: string -> bool)
    requires models != []
    ensures Verifier(models, o, answered).Some?
    ensures var r := Verifier(models, o, answered).value;
      && Honest(models, o, r)
      && (forall m :: m in models ==> o(m).latency <= r.latency)
      && (exists m :: m in models && o(m).latency == r.latency)
      && (r.success ==> answered(r.winner.value) && forall m :: m in models && answered(m) && o(m).acceptable ==>
        o(m).noisyScore < o(r.winner.value).noisyScore
        || (o(m).noisyScore == o(r.winner.value).noisyScore && !LexLess(r.winner.value, m)))
      && (!r.success ==> forall m :: m in models && answered(m) ==> !o(m).acceptable)
      && (r.verifierError <==> r.success && exists m ::
        (m in models && answered(m) && o(m).acceptable && r.score < o(m).trueScore - 0.000000000001))
  {
    FilterSome(models, m => answered(m) && o(m).acceptable);
  }

  // ---- Comparing them ------------------------------------------------------------------------------------------

  ghost predicate SomeAcceptable(models: seq<string>, o: Schedule) { exists m :: m in models && o(m).acceptable }

  lemma {:induction false} CascadeMeans(chain: seq<string>, o: Schedule, spent: real)
    requires forall m :: m in chain ==> o(m).latency >= 0.0
    ensures var r := Cascade(chain, o, spent);
      && (r.success <==> SomeAcceptable(chain, o))
      && (r.success ==> r.winner.Some? && r.winner.value in chain && o(r.winner.value).acceptable
                        && r.score == o(r.winner.value).trueScore && r.latency >= spent + o(r.winner.value).latency)
      && (!r.success ==> r.winner.None? && forall m :: m in chain ==> r.latency >= spent + o(m).latency)
      && r.latency >= spent
  {
    if chain != [] {
      assert chain == [chain[0]] + chain[1..];
      CascadeMeans(chain[1..], o, spent + o(chain[0]).latency);
    }
  }

  /** The first acceptable candidate in the chain wins, after everyone before it. */
  lemma {:induction false} CascadeTakesFirst(chain: seq<string>, o: Schedule, spent: real, k: nat)
    requires k < |chain| && o(chain[k]).acceptable && forall j :: 0 <= j < k ==> !o(chain[j]).acceptable
    ensures Cascade(chain, o, spent)
      == Delivery(true, spent + Total(chain[..k + 1], o), o(chain[k]).trueScore, false, Some(chain[k]))
  {
    assert chain[..k + 1][1..] == chain[1..][..k];
    if k > 0 {
      CascadeTakesFirst(chain[1..], o, spent + o(chain[0]).latency, k - 1);
    } else {
      assert chain[..1] == [chain[0]];
    }
  }

  function Total(models: seq<string>, o: Schedule): real {
    if models == [] then 0.0 else o(models[0]).latency + Total(models[1..], o)
  }

  /** Over the same candidates the three succeed on the same tasks, when an acceptable answer is one that arrived:
      cascade and early stop always, the verifier exactly unless every acceptable call raised. */
  lemma SucceedAlike(chain: seq<string>, models: seq<string>, o: Schedule, answered: string -> bool)
    requires models != [] && (forall m :: m in chain <==> m in models)
    requires forall m :: m in models ==> o(m).latency >= 0.0
    ensures EarlyStop(models, o).Some? && Verifier(models, o, answered).Some?
    ensures Cascade(chain, o, 0.0).success == EarlyStop(models, o).value.success
    ensures Verifier(models, o, answered).value.success == EarlyStop(models, o).value.success <==>
      (SomeAcceptable(models, o) ==> exists m :: m in models && o(m).acceptable && answered(m))
    ensures (forall m :: m in models ==> Physical(o(m)) && (answered(m) <==> !o(m).transientFailure)) ==>
      Verifier(models, o, answered).value.success == EarlyStop(models, o).value.success
  {
    CascadeMeans(chain, o, 0.0);
    FilterSome(models, m => o(m).acceptable);
    FilterSome(models, m => answered(m) && o(m).acceptable);
  }

  lemma FilterSome(models: seq<string>, keep: string -> bool)
    ensures Filter(models, keep) != [] <==> exists m :: m in models && keep(m)
  {
    if Filter(models, keep) != [] { assert Filter(models, keep)[0] in Filter(models, keep); }
  }

  /** Early stop is never slower than either. */
  lemma EarlyStopIsFastest(chain: seq<string>, models: seq<string>, o: Schedule, answered: string -> bool)
    requires models != [] && (forall m :: m in chain <==> m in models)
    requires forall m :: m in models ==> o(m).latency >= 0.0
    ensures EarlyStop(models, o).Some? && Verifier(models, o, answered).Some?
    ensures EarlyStop(models, o).value.latency <= Cascade(chain, o, 0.0).latency
    ensures EarlyStop(models, o).value.latency <= Verifier(models, o, answered).value.latency
  {
    hide EarlyStop;
    CascadeMeans(chain, o, 0.0);
    EarlyStopLatency(models, o, Cascade(chain, o, 0.0).latency);
    EarlyStopLatency(models, o, Verifier(models, o, answered).value.latency);
  }

  /** Early stop takes no longer than any acceptable candidate, nor than the slowest candidate. */
  lemma EarlyStopLatency(models: seq<string>, o: Schedule, bound: real)
    requires models != []
    ensures EarlyStop(models, o).Some?
    ensures (forall m :: m in models ==> o(m).latency <= bound)
      || (exists m :: m in models && o(m).acceptable && o(m).latency <= bound)
      ==> EarlyStop(models, o).value.latency <= bound
  {
    FilterSome(models, m => o(m).acceptable);
  }

  /** The verifier's choice is within its noise of the best acceptable answer, and unless it reports an error it
      delivers what the other two deliver or better. */
  lemma VerifierRegret(chain: seq<string>, models: seq<string>, o: Schedule, answered: string -> bool)
    requires (forall m :: m in chain <==> m in models)
    requires forall m :: m in models ==> Physical(o(m)) && (answered(m) <==> !o(m).transientFailure)
    requires models != [] && Verifier(models, o, answered).value.success
    ensures var v := Verifier(models, o, answered).value;
      && (forall m :: m in models && o(m).acceptable ==> o(m).trueScore - v.score <= 0.2)
      && (!v.verifierError ==> EarlyStop(models, o).value.score <= v.score + 0.000000000001
                               && Cascade(chain, o, 0.0).score <= v.score + 0.000000000001)
  {
    var acceptable := Filter(models, m => answered(m) && o(m).acceptable);
    assert forall m :: m in models && o(m).acceptable ==> m in acceptable;
    SucceedAlike(chain, models, o, answered);
    CascadeMeans(chain, o, 0.0);
    assert EarlyStop(models, o).value.winner.value in acceptable;
    assert Cascade(chain, o, 0.0).winner.value in acceptable;
  }

  // ---- Settlement -----------------------------------------------------------------------------------------------

  datatype CallState = InFlight | Completed | Failed

  class PhysicalCall {
    const effectKey: string
    const latency: real
    const inputUnits: nat
    const outputUnits: nat
    var state: CallState
    var billedInput: real
    var billedOutput: real

    constructor (effectKey: string, latency: real, inputUnits: nat, outputUnits: nat)
      ensures this.effectKey == effectKey && this.latency == latency && this.inputUnits == inputUnits
        && this.outputUnits == outputUnits
      ensures state == InFlight && billedInput == 0.0 && billedOutput == 0.0
    {
      this.effectKey, this.latency, this.inputUnits, this.outputUnits := effectKey, latency, inputUnits, outputUnits;
      state, billedInput, billedOutput := InFlight, 0.0, 0.0;
    }
  }

  class TaskOutcome {
    const latency: real
    const winner: Option<string>
    var winnerInput: real
    var winnerOutput: real

    constructor (latency: real, winner: Option<string>)
      ensures this.latency == latency && this.winner == winner && winnerInput == 0.0 && winnerOutput == 0.0
    {
      this.latency, this.winner, winnerInput, winnerOutput := latency, winner, 0.0, 0.0;
    }
  }

  predicate Wins(r: PhysicalCall, t: TaskOutcome) { t.winner == Some(r.effectKey) }

  /** How much of its output a call has accrued when the winner lands. */
  function Progress(waited: real, latency: real): (p: real)
    requires latency != 0.0
    ensures p <= 1.0 && (waited >= 0.0 && latency > 0.0 ==> p >= 0.0) && (0.0 < latency <= waited ==> p == 1.0)
    ensures latency > 0.0 && waited <= latency ==> p * latency == waited
  {
    ProgressBounds(waited, latency);
    if waited / latency < 1.0 then waited / latency else 1.0
  }

  lemma ProgressBounds(waited: real, latency: real)
    requires latency != 0.0
    ensures waited >= 0.0 && latency > 0.0 ==> waited / latency >= 0.0
    ensures 0.0 < latency <= waited ==> waited / latency >= 1.0
    ensures latency > 0.0 && waited <= latency ==> waited / latency <= 1.0
    ensures waited / latency * latency == waited
  {
    var q := waited / latency;
    assert q * latency == waited;
  }

  /** The output a call owes in a given state: nothing new when it failed and did not win, everything when it won,
      finished, or nobody won, and its accrued share when it was cancelled. */
  function OutputDue(r: PhysicalCall, t: TaskOutcome, state: CallState, before: real): real
    requires state == InFlight && t.winner.Some? && !Wins(r, t) ==> r.latency != 0.0
  {
    if Wins(r, t) then r.outputUnits as real
    else if state == Failed then before
    else if t.winner.None? || state == Completed then r.outputUnits as real
    else r.outputUnits as real * Progress(t.latency, r.latency)
  }

  /** No call is charged beyond its full units, and the winner is charged all of them. */
  lemma NeverOvercharged(r: PhysicalCall, t: TaskOutcome, state: CallState, before: real)
    requires state == InFlight && t.winner.Some? && !Wins(r, t) ==> r.latency != 0.0
    requires before <= r.outputUnits as real
    ensures OutputDue(r, t, state, before) <= r.outputUnits as real
    ensures before >= 0.0 && t.latency >= 0.0 && r.latency > 0.0 ==> OutputDue(r, t, state, before) >= 0.0
    ensures Wins(r, t) || (state != Failed && 0.0 < r.latency <= t.latency) ==>
      OutputDue(r, t, state, before) == r.outputUnits as real
  {
    if r.latency != 0.0 {
      var units, p := r.outputUnits as real, Progress(t.latency, r.latency);
      Share(units, p);
    }
  }

  lemma Share(units: real, p: real)
    requires units >= 0.0 && p <= 1.0
    ensures units * p <= units && (p >= 0.0 ==> units * p >= 0.0) && (p == 1.0 ==> units * p == units)
  {
    if p >= 0.0 {} else { assert units * p <= 0.0; }
  }

  /** What a call owes, in every state it can be in when the task is over. */
  lemma OutputDueMeans(r: PhysicalCall, t: TaskOutcome, state: CallState, before: real)
    requires state == InFlight && t.winner.Some? && !Wins(r, t) ==> r.latency != 0.0
    ensures t.winner == Some(r.effectKey) || state == Completed || (t.winner == None && state == InFlight) ==>
      OutputDue(r, t, state, before) == r.outputUnits as real
    ensures t.winner != Some(r.effectKey) && state == Failed ==> OutputDue(r, t, state, before) == before
    ensures t.winner.Some? && t.winner.value != r.effectKey && state == InFlight && r.latency > 0.0 ==>
      if t.latency <= r.latency then OutputDue(r, t, state, before) * r.latency == r.outputUnits as real * t.latency
      else OutputDue(r, t, state, before) == r.outputUnits as real
  {
    if t.winner.Some? && t.winner.value != r.effectKey && state == InFlight && r.latency > 0.0 {
      var units, p := r.outputUnits as real, Progress(t.latency, r.latency);
      if t.latency <= r.latency {
        Regroup(units, p, r.latency);
      } else {
        Share(units, p);
      }
    }
  }

  lemma Regroup(x: real, y: real, z: real)
    ensures (x * y) * z == x * (y * z)
  {
  }

  ghost predicate Settled(r: PhysicalCall, t: TaskOutcome, state: CallState, before: real)
    reads r
    requires state == InFlight && t.winner.Some? && !Wins(r, t) ==> r.latency != 0.0
  {
    r.billedInput == r.inputUnits as real && r.billedOutput == OutputDue(r, t, state, before)
  }

  /** Settling a record a second time changes nothing. */
  lemma SettledTwice(r: PhysicalCall, t: TaskOutcome, state: CallState, before: real)
    requires state == InFlight && t.winner.Some? && !Wins(r, t) ==> r.latency != 0.0
    ensures OutputDue(r, t, state, OutputDue(r, t, state, before)) == OutputDue(r, t, state, before)
  {
  }

  method SettleBilling(records: seq<PhysicalCall>, t: TaskOutcome)
    requires forall r :: r in records && r.state == InFlight && t.winner.Some? && !Wins(r, t) ==> r.latency != 0.0
    modifies records, t
    ensures forall r :: r in records ==> r.state == old(r.state) && r.billedInput == r.inputUnits as real
    ensures forall r :: r in records && (old(r.state) == Completed || t.winner == Some(r.effectKey)) ==>
      r.billedOutput == r.outputUnits as real
    ensures forall r :: r in records && old(r.state) == Failed && t.winner != Some(r.effectKey) ==>
      r.billedOutput == old(r.billedOutput)
    ensures t.winner == None ==>
      forall r :: r in records && old(r.state) == InFlight ==> r.billedOutput == r.outputUnits as real
    ensures t.winner.Some? ==>
      forall r :: r in records && old(r.state) == InFlight && r.effectKey != t.winner.value && r.latency > 0.0 ==>
        if t.latency <= r.latency then r.billedOutput * r.latency == r.outputUnits as real * t.latency
        else r.billedOutput == r.outputUnits as real
    ensures forall r :: r in records ==> r.billedOutput == OutputDue(r, t, old(r.state), old(r.billedOutput))
    ensures forall r :: r in records && old(r.billedOutput) <= r.outputUnits as real ==>
      r.billedOutput <= r.outputUnits as real
    ensures forall r :: r in records && Wins(r, t) ==> r.billedOutput == r.outputUnits as real
    ensures (exists r :: r in records && Wins(r, t)) ==>
      exists r :: r in records && Wins(r, t) && t.winnerInput == r.billedInput && t.winnerOutput == r.billedOutput
    ensures (forall r :: r in records ==> !Wins(r, t)) ==>
      t.winnerInput == old(t.winnerInput) && t.winnerOutput == old(t.winnerOutput)
  {
    for k := 0 to |records|
      invariant forall r :: r in records ==> r.state == old(r.state)
      invariant forall r :: r in records && r !in records[..k] ==> r.billedOutput == old(r.billedOutput)
      invariant forall r :: r in records[..k] ==> Settled(r, t, old(r.state), old(r.billedOutput))
      invariant (exists r :: r in records[..k] && Wins(r, t)) ==>
        exists r :: r in records[..k] && Wins(r, t) && t.winnerInput == r.billedInput
          && t.winnerOutput == r.billedOutput
      invariant (forall r :: r in records[..k] ==> !Wins(r, t)) ==>
        t.winnerInput == old(t.winnerInput) && t.winnerOutput == old(t.winnerOutput)
    {
      assert records[..k + 1] == records[..k] + [records[k]];
      SettledTwice(records[k], t, old(records[k].state), old(records[k].billedOutput));
      SettleOne(records[k], t);
    }
    assert records[..|records|] == records;
    forall r | r in records
      ensures r.billedOutput == OutputDue(r, t, old(r.state), old(r.billedOutput))
    {
      OutputDueMeans(r, t, old(r.state), old(r.billedOutput));
    }
    hide OutputDue;
    forall r | r in records && old(r.billedOutput) <= r.outputUnits as real
      ensures r.billedOutput <= r.outputUnits as real
    {
      NeverOvercharged(r, t, old(r.state), old(r.billedOutput));
    }
  }

  method SettleOne(r: PhysicalCall, t: TaskOutcome)
    requires r.state == InFlight && t.winner.Some? && !Wins(r, t) ==> r.latency != 0.0
    modifies r, t
    ensures r.state == old(r.state) && r.billedInput == r.inputUnits as real
    ensures r.billedOutput == OutputDue(r, t, old(r.state), old(r.billedOutput))
    ensures Wins(r, t) ==> t.winnerInput == r.billedInput && t.winnerOutput == r.billedOutput
    ensures !Wins(r, t) ==> t.winnerInput == old(t.winnerInput) && t.winnerOutput == old(t.winnerOutput)
  {
    r.billedInput := r.inputUnits as real;
    if t.winner.None? {
      if r.state != Failed { r.billedOutput := r.outputUnits as real; }
    } else if Wins(r, t) {
      r.billedOutput := r.outputUnits as real;
      t.winnerInput, t.winnerOutput := r.billedInput, r.billedOutput;
    } else if r.state == Completed {
      r.billedOutput := r.outputUnits as real;
    } else if r.state == InFlight {
      r.billedOutput := r.outputUnits as real * Progress(t.latency, r.latency);
    }
  }
}
