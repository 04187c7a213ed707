/** How a pass of the controller ends: its exit code, and what makes it fail. */
module Passes {
  import opened Wrappers
  import opened QueueHistory
  import opened QueueRuns
  import opened StatusPage
  import opened Admission

  /** A step other than a crash or a restart. */
  ghost predicate Orderly(policy: Policy, s: State, s': State)
    requires s.worlds != []
  {
    || EnvStep(s, s') || StartStep(s, s') || HistoryStep(s, s') || ListStep(s, s') || PrStep(s, s') || StatusStep(s, s')
    || AssessStep(policy, s, s') || RefetchStep(s, s') || PutStep(s, s')
  }

  // ---- Controller failures ------------------------------------------------------------------------------------

  /** The controller failed on the PR it is looking at: a success of its gate has no usable time, the PR could not be
      read again, the base is not the controller's own revision, or the policy could not be run. */
  ghost predicate FailsOnPr(policy: Policy, s: State)
    requires s.worlds != []
  {
    var w := s.worlds[|s.worlds| - 1];
    match s.phase
    case Reading(_, number, pr, _) =>
      var ss := Visible(StatusesOf(w, pr.head));
      && (exists k: nat :: LatestAt(ss, "gates-ran", k) && k < |ss| && ss[k].state == "success")
      && exists i :: GatePassed(ss, i) && ss[i].created == None
    case Checked(_, number, pr, _, _, _) =>
      || number !in w.prs
      || (w.prs[number].head == pr.head
        && ((s.revision != "" && w.base != s.revision) || policy(w.base, pr.head) == Broken))
    case _ => false
  }

  /** One step counts one failure when the controller failed, and none otherwise; whether a request was refused only
      its answer tells. */
  lemma FailuresCounted(policy: Policy, s: State, s': State)
    requires s.worlds != [] && Orderly(policy, s, s') && s'.worlds == s.worlds
    ensures s'.failures == s.failures || s'.failures == s.failures + 1
    ensures !s.phase.Confirmed? ==> (s'.failures == s.failures + 1 <==> FailsOnPr(policy, s))
  {
    hide EnvStep, StartStep, HistoryStep, ListStep, PrStep, StatusStep, AssessStep, RefetchStep, PutStep, FailsOnPr;
    if StatusStep(s, s') {
      StatusCounts(policy, s, s');
    } else if AssessStep(policy, s, s') {
      AssessCounts(policy, s, s');
    } else {
      OthersCountNone(policy, s, s');
    }
  }

  lemma StatusCounts(policy: Policy, s: State, s': State)
    requires s.worlds != [] && StatusStep(s, s')
    ensures s.phase.Reading? && s'.failures == s.failures + if FailsOnPr(policy, s) then 1 else 0
  {
    hide Hold, Lookup, GatesGreen, LatestAt, GatePassed;
    var ss := Visible(StatusesOf(Current(s), s.phase.pr.head));
    GreenExactly(ss);
    HeldExactly(ss, Lookup(s.quarantine, s.phase.number));
  }

  lemma AssessCounts(policy: Policy, s: State, s': State)
    requires s.worlds != [] && AssessStep(policy, s, s')
    ensures s.phase.Checked? && s'.failures == s.failures + if FailsOnPr(policy, s) then 1 else 0
  {
    hide IsAdmissible;
  }

  lemma OthersCountNone(policy: Policy, s: State, s': State)
    requires s.worlds != [] && s'.worlds == s.worlds
    requires EnvStep(s, s') || StartStep(s, s') || HistoryStep(s, s') || ListStep(s, s') || PrStep(s, s')
      || RefetchStep(s, s') || PutStep(s, s')
    ensures s'.failures == s.failures || s'.failures == s.failures + 1
    ensures !s.phase.Confirmed? ==> s'.failures == s.failures && !FailsOnPr(policy, s)
  {
    hide Collect, Reads;
  }

  // ---- Exit codes ------------------------------------------------------------------------------------------------

  /** The runs cannot be read, or a failing run of a queue entry has no usable time. */
  ghost predicate HistoryUnusable(w: World) {
    w.runs.None? || exists i, k :: FailedAt(w.runs.value, k, i) && w.runs.value[i].created.None?
  }

  ghost predicate CountsFailure(run: seq<State>, k: int) {
    0 <= k < |run| - 1 && run[k + 1].failures > run[k].failures
  }

  /** From a to b one pass runs, from its start and without a crash; it is not over before b. */
  ghost predicate OnePass(policy: Policy, run: seq<State>, a: nat, b: nat) {
    && IsRun(policy, run) && a <= b < |run| && run[a].phase.Idle?
    && forall k :: a <= k < b ==> !run[k].phase.Finished? && Orderly(policy, run[k], run[k + 1])
  }

  ghost predicate SoFar(run: seq<State>, a: nat, k: nat) {
    && a <= k < |run| && run[k].revision == run[a].revision
    && (run[k].failures > 0 <==> exists j :: a <= j < k && CountsFailure(run, j))
    && (run[k].phase.Idle? || run[k].phase.History? ==> run[k].failures == 0)
    && (!run[k].phase.Idle? ==> run[k].revision != "")
  }

  lemma {:induction false} PassSoFar(policy: Policy, run: seq<State>, a: nat, k: nat)
    requires OnePass(policy, run, a, k) && !run[k].phase.Finished?
    ensures SoFar(run, a, k)
  {
    hide Orderly, Step, Init, Moves;
    if k == a {
      IdleIsFresh(policy, run, a);
      SoFarStarts(run, a);
    } else {
      assert Orderly(policy, run[k - 1], run[(k - 1) + 1]);
      PassMoves(policy, run[k - 1], run[k]);
      PassSoFar(policy, run, a, k - 1);
      SoFarStep(run, a, k - 1);
    }
  }

  /** A pass always starts with nothing counted. */
  lemma {:induction false} IdleIsFresh(policy: Policy, run: seq<State>, i: nat)
    requires IsRun(policy, run) && i < |run| && run[i].phase.Idle?
    ensures run[i].failures == 0
  {
    if i > 0 {
      assert Step(policy, run[i - 1], run[(i - 1) + 1]);
      IdleComes(policy, run[i - 1], run[i]);
      if !run[i - 1].phase.Finished? { IdleIsFresh(policy, run, i - 1); }
    }
  }

  lemma IdleComes(policy: Policy, s: State, s': State)
    requires s.worlds != [] && Step(policy, s, s') && s'.phase.Idle?
    ensures (s.phase.Idle? && s'.failures == s.failures) || (s.phase.Finished? && s'.failures == 0) || EnvStep(s, s')
  {
    if !CrashStep(s, s') && !RestartStep(s, s') && !EnvStep(s, s') {
      hide EnvStep, StartStep, HistoryStep, ListStep, PrStep, StatusStep, AssessStep, RefetchStep, PutStep, CrashStep,
        RestartStep;
      NoneIdles(policy, s, s');
    }
  }

  /** Only a restart begins a pass. */
  lemma NoneIdles(policy: Policy, s: State, s': State)
    requires s.worlds != []
    requires StartStep(s, s') || HistoryStep(s, s') || ListStep(s, s') || PrStep(s, s') || StatusStep(s, s')
      || AssessStep(policy, s, s') || RefetchStep(s, s') || PutStep(s, s')
    ensures !s'.phase.Idle?
  {
    hide Hold, Collect, Reads, Lookup, GatesGreen, IsAdmissible;
  }

  lemma SoFarStarts(run: seq<State>, a: nat)
    requires a < |run| && run[a].phase.Idle? && run[a].failures == 0
    ensures SoFar(run, a, a)
  {
  }

  lemma SoFarStep(run: seq<State>, a: nat, k: nat)
    requires k + 1 < |run| && SoFar(run, a, k) && Moves(run[k], run[k + 1])
    ensures SoFar(run, a, k + 1)
  {
    assert CountsFailure(run, k) <==> run[k + 1].failures > run[k].failures;
  }

  /** What a step that does not end the pass leaves and changes. */
  ghost predicate Moves(s: State, s': State) {
    && s'.revision == s.revision && s'.failures >= s.failures && (s'.phase.Idle? ==> s.phase.Idle?)
    && (s'.phase.Idle? || s'.phase.History? ==> s'.failures == s.failures && (s.phase.Idle? || s.phase.History?))
    && (s.phase.Idle? && !s'.phase.Idle? ==> s.revision != "")
  }

  lemma PassMoves(policy: Policy, s: State, s': State)
    requires s.worlds != [] && Orderly(policy, s, s') && !s.phase.Finished? && !s'.phase.Finished?
    ensures Moves(s, s')
  {
    hide EnvStep, StartStep, HistoryStep, ListStep, PrStep, StatusStep, AssessStep, RefetchStep, PutStep, Moves;
    if EnvStep(s, s') || StartStep(s, s') || HistoryStep(s, s') || ListStep(s, s') {
      FirstMoves(s, s');
    } else if PrStep(s, s') || StatusStep(s, s') {
      ReadingMoves(s, s');
    } else {
      JudgingMoves(policy, s, s');
    }
  }

  lemma FirstMoves(s: State, s': State)
    requires s.worlds != [] && !s'.phase.Finished?
    requires EnvStep(s, s') || StartStep(s, s') || HistoryStep(s, s') || ListStep(s, s')
    ensures Moves(s, s')
  {
    hide Collect, Reads;
  }

  lemma ReadingMoves(s: State, s': State)
    requires s.worlds != [] && !s'.phase.Finished? && (PrStep(s, s') || StatusStep(s, s'))
    ensures Moves(s, s')
  {
    hide Hold, GatesGreen, Lookup;
  }

  lemma JudgingMoves(policy: Policy, s: State, s': State)
    requires s.worlds != [] && (AssessStep(policy, s, s') || RefetchStep(s, s') || PutStep(s, s'))
    ensures Moves(s, s')
  {
    hide IsAdmissible;
  }

  lemma PassFinishes(policy: Policy, s: State, s': State)
    requires s.worlds != [] && Orderly(policy, s, s')
    requires !s.phase.Finished? && s'.phase.Finished?
    ensures s.phase.Idle? ==> s.revision == "" && s'.phase.code == 2
    ensures s.phase.History? ==> s'.phase.code == 1 && HistoryUnusable(Current(s))
    ensures !s.phase.Idle? && !s.phase.History? ==>
      s.phase.Scanning? && s'.phase.code == if s.failures > 0 then 1 else 0
  {
    hide Hold, Collect, Reads, Lookup, GatesGreen;
    if s.phase.History? && Current(s).runs.Some? { UnusableExactly(Current(s).runs.value); }
  }

  /** A pass ends with 2 exactly when it has no revision to bind the policy to, otherwise with 1 exactly when the
      history was unusable or the controller failed on some PR, and with 0 in every other case. */
  lemma PassEndsWith(policy: Policy, run: seq<State>, a: nat, b: nat)
    requires OnePass(policy, run, a, b) && a < b && run[b].phase.Finished?
    ensures run[b].phase.code ==
      if run[a].revision == "" then 2
      else if run[b - 1].phase.History? || exists k :: a <= k < b && CountsFailure(run, k) then 1
      else 0
    ensures run[b - 1].phase.History? ==> HistoryUnusable(Current(run[b - 1]))
  {
    hide SoFar, HistoryUnusable, Orderly, Step, Init;
    assert Orderly(policy, run[b - 1], run[(b - 1) + 1]);
    PassSoFar(policy, run, a, b - 1);
    PassFinishes(policy, run[b - 1], run[b]);
    LastCountsNone(policy, run, b - 1);
    SoFarMeans(run, a, b - 1);
  }

  lemma SoFarMeans(run: seq<State>, a: nat, k: nat)
    requires SoFar(run, a, k)
    ensures a <= k < |run| && run[k].revision == run[a].revision
    ensures run[k].failures > 0 <==> exists j :: a <= j < k && CountsFailure(run, j)
    ensures !run[k].phase.Idle? ==> run[k].revision != ""
    ensures run[k].phase.Idle? || run[k].phase.History? ==> run[k].failures == 0
  {
  }

  lemma LastCountsNone(policy: Policy, run: seq<State>, k: nat)
    requires k + 1 < |run| && run[k].worlds != [] && Orderly(policy, run[k], run[k + 1])
    requires !run[k].phase.Finished? && run[k + 1].phase.Finished?
    ensures !CountsFailure(run, k)
  {
    hide Hold, Collect, Reads, Lookup, GatesGreen;
  }
}
