/**
 * The merge-queue controller as a state machine whose steps interleave with everything
 * GitHub and other people do: pushes, gate results, queue results, base advances.
 */
module Admission {
  import opened QueueHistory
  import opened Wrappers
  import opened StatusPage

  /** A pull request as the API shows it; armed means auto-merge was requested. */
  datatype Pr = Pr(head: Sha, base: string, open: bool, draft: bool, armed: bool)

  /** runs is None while the merge-group history cannot be read. */
  datatype World = World(prs: map<nat, Pr>, statuses: map<Sha, seq<Status>>, base: Sha, runs: Option<seq<Run>>)

  function StatusesOf(w: World, sha: Sha): seq<Status> { if sha in w.statuses then w.statuses[sha] else [] }

  /** The verdict of the repository's own merge policy on a head against a base. */
  datatype Verdict = Unmergeable | Broken | Assessed(eligible: bool)
  type Policy = (Sha, Sha) -> Verdict

  type Quarantine = map<nat, seq<QueueFailure>>

  /** Where a pass over one PR stands; the fields named At say when something was read. */
  datatype Phase =
    | Idle
    | History
    | Listing
    | Scanning(todo: seq<nat>)
    | Reading(todo: seq<nat>, number: nat, pr: Pr, prAt: nat)
    | Checked(todo: seq<nat>, number: nat, pr: Pr, prAt: nat, statuses: seq<Status>, statusAt: nat)
    | Admissible(todo: seq<nat>, number: nat, pr: Pr, prAt: nat, statusAt: nat, assessAt: nat)
    | Confirmed(todo: seq<nat>, number: nat, pr: Pr, prAt: nat, statusAt: nat, assessAt: nat, baseAt: nat)
    | Finished(code: nat)

  /** An enqueue request, with the readings it rests on. */
  datatype Request = Request(number: nat, head: Sha, revision: Sha, runsAt: nat, prAt: nat, statusAt: nat,
                             assessAt: nat, baseAt: nat, putAt: nat)

  datatype State = State(
    worlds: seq<World>,
    phase: Phase,
    revision: Sha,
    quarantine: Quarantine,
    runsAt: nat,
    assessedBases: map<(nat, Sha), Sha>,
    failures: nat,
    log: seq<Request>)

  function Now(s: State): nat
    requires s.worlds != []
  {
    |s.worlds| - 1
  }

  function Current(s: State): World
    requires s.worlds != []
  {
    s.worlds[|s.worlds| - 1]
  }

  // ---- Steps -----------------------------------------------------------------------------------------

  ghost predicate Init(s: State) {
    |s.worlds| == 1 && s.phase == Idle && s.log == [] && s.assessedBases == map[] && s.failures == 0
  }

  /** The world moves on in any way at all. */
  ghost predicate EnvStep(s: State, s': State) {
    exists w :: s' == s.(worlds := s.worlds + [w])
  }

  ghost predicate Reads(q: Quarantine, runs: seq<Run>) {
    Collect(runs).Ok? && forall number: nat :: Lookup(q, number) == OwnFailures(runs, number)
  }

  /** The pass over one PR ends without a request; failed counts a controller failure. */
  function Next(s: State, todo: seq<nat>, failed: bool): State {
    s.(phase := Scanning(todo), failures := s.failures + if failed then 1 else 0)
  }

  ghost predicate StartStep(s: State, s': State) {
    s.phase.Idle? && s' == s.(phase := if s.revision == "" then Finished(2) else History)
  }

  ghost predicate HistoryStep(s: State, s': State)
    requires s.worlds != []
  {
    && s.phase.History?
    && match Current(s).runs
       case None => s' == s.(phase := Finished(1))
       case Some(runs) =>
         if Collect(runs).Err? then s' == s.(phase := Finished(1))
         else Reads(s'.quarantine, runs) && s' == s.(phase := Listing, quarantine := s'.quarantine, runsAt := Now(s))
  }

  ghost predicate ListStep(s: State, s': State) {
    s.phase.Listing? && exists todo :: s' == s.(phase := Scanning(todo))
  }

  ghost predicate PrStep(s: State, s': State)
    requires s.worlds != []
  {
    && s.phase.Scanning?
    && if s.phase.todo == [] then s' == s.(phase := Finished(if s.failures > 0 then 1 else 0))
       else
         var number, rest := s.phase.todo[0], s.phase.todo[1..];
         && number in Current(s).prs
         && var pr := Current(s).prs[number];
            s' == if pr.armed then Next(s, rest, false) else s.(phase := Reading(rest, number, pr, Now(s)))
  }

  /** _admission_hold on the statuses of the head just read. */
  ghost predicate StatusStep(s: State, s': State)
    requires s.worlds != []
  {
    && s.phase.Reading?
    && var ss := Visible(StatusesOf(Current(s), s.phase.pr.head));
       s' ==
         if !GatesGreen(ss) then Next(s, s.phase.todo, false)
         else match Hold(ss, Lookup(s.quarantine, s.phase.number))
           case Err => Next(s, s.phase.todo, true)
           case Ok(Some(_)) => Next(s, s.phase.todo, false)
           case Ok(None) => s.(phase := Checked(s.phase.todo, s.phase.number, s.phase.pr, s.phase.prAt, ss, Now(s)))
  }

  predicate IsAdmissible(pr: Pr, statuses: seq<Status>, eligible: bool) {
    pr.open && !pr.draft && !pr.armed && pr.base == BASE_BRANCH && eligible && GatesGreen(statuses)
  }

  /** policy_assessment: one fetch of head and base, then the verdict. */
  ghost predicate AssessStep(policy: Policy, s: State, s': State)
    requires s.worlds != []
  {
    && s.phase.Checked?
    && var w, number, pr := Current(s), s.phase.number, s.phase.pr;
       s' ==
         if number !in w.prs then Next(s, s.phase.todo, true)
         else if w.prs[number].head != pr.head then Next(s, s.phase.todo, false)
         else if s.revision != "" && w.base != s.revision then Next(s, s.phase.todo, true)
         else match policy(w.base, pr.head)
           case Unmergeable => Next(s, s.phase.todo, false)
           case Broken => Next(s, s.phase.todo, true)
           case Assessed(eligible) =>
             var bound := s.(assessedBases := s.assessedBases[(number, pr.head) := w.base]);
             if IsAdmissible(pr, s.phase.statuses, eligible)
             then bound.(phase := Admissible(s.phase.todo, number, pr, s.phase.prAt, s.phase.statusAt, Now(s)))
             else Next(bound, s.phase.todo, false)
  }

  /** enqueue, first half: the base is fetched again and must not have moved. */
  ghost predicate RefetchStep(s: State, s': State)
    requires s.worlds != []
  {
    && s.phase.Admissible?
    && var p, key := s.phase, (s.phase.number, s.phase.pr.head);
       s' ==
         if key in s.assessedBases && Current(s).base != s.assessedBases[key] then Next(s, p.todo, false)
         else s.(phase := Confirmed(p.todo, p.number, p.pr, p.prAt, p.statusAt, p.assessAt, Now(s)))
  }

  /** enqueue, second half: the request goes out; its answer may be a controller failure. */
  ghost predicate PutStep(s: State, s': State)
    requires s.worlds != []
  {
    && s.phase.Confirmed?
    && var p := s.phase;
       var r := Request(p.number, p.pr.head, s.revision, s.runsAt, p.prAt, p.statusAt, p.assessAt, p.baseAt, Now(s));
       exists failed :: s' == Next(s, p.todo, failed).(log := s.log + [r])
  }

  /** An exception nobody catches ends the process. */
  ghost predicate CrashStep(s: State, s': State) {
    !s.phase.Idle? && s' == s.(phase := Finished(1))
  }

  /** A later run of the workflow starts from its own checkout with nothing remembered. */
  ghost predicate RestartStep(s: State, s': State) {
    && s.phase.Finished?
    && s' == s.(phase := Idle, revision := s'.revision, quarantine := map[], runsAt := 0, assessedBases := map[],
      failures := 0)
  }

  ghost predicate Step(policy: Policy, s: State, s': State)
    requires s.worlds != []
  {
    || EnvStep(s, s') || StartStep(s, s') || HistoryStep(s, s') || ListStep(s, s') || PrStep(s, s') || StatusStep(s, s')
    || AssessStep(policy, s, s') || RefetchStep(s, s') || PutStep(s, s') || CrashStep(s, s') || RestartStep(s, s')
  }

  // ---- What the controller may rely on -----------------------------------------------------------------

  ghost predicate ReadHistoryAt(ws: seq<World>, at: nat, q: Quarantine) {
    at < |ws| && ws[at].runs.Some? && Reads(q, ws[at].runs.value)
  }

  ghost predicate ReadPrAt(ws: seq<World>, at: nat, number: nat, pr: Pr) {
    at < |ws| && number in ws[at].prs && ws[at].prs[number] == pr && !pr.armed
  }

  ghost predicate CheckedAt(ws: seq<World>, at: nat, head: Sha, fs: seq<QueueFailure>) {
    && at < |ws|
    && var ss := Visible(StatusesOf(ws[at], head));
       GatesGreen(ss) && Hold(ss, fs) == Ok(None)
  }

  ghost predicate AssessedAt(policy: Policy, ws: seq<World>, at: nat, number: nat, pr: Pr, revision: Sha) {
    && at < |ws| && number in ws[at].prs && ws[at].prs[number].head == pr.head
    && ws[at].base == revision && policy(revision, pr.head) == Assessed(true)
    && pr.open && !pr.draft && pr.base == BASE_BRANCH
  }

  ghost predicate Running(s: State) {
    && s.revision != "" && ReadHistoryAt(s.worlds, s.runsAt, s.quarantine)
    && forall k :: k in s.assessedBases ==> s.assessedBases[k] == s.revision
  }

  ghost predicate PhaseInv(policy: Policy, s: State) {
    match s.phase
    case Idle => s.assessedBases == map[]
    case Finished(_) => true
    case History => s.revision != "" && s.assessedBases == map[]
    case Listing => Running(s)
    case Scanning(_) => Running(s)
    case Reading(_, number, pr, prAt) => Running(s) && s.runsAt <= prAt && ReadPrAt(s.worlds, prAt, number, pr)
    case Checked(_, number, pr, prAt, ss, at) =>
      && Running(s) && s.runsAt <= prAt <= at && ReadPrAt(s.worlds, prAt, number, pr)
      && CheckedAt(s.worlds, at, pr.head, Lookup(s.quarantine, number))
      && ss == Visible(StatusesOf(s.worlds[at], pr.head))
    case Admissible(_, number, pr, prAt, statusAt, at) =>
      && Running(s) && s.runsAt <= prAt <= statusAt <= at && ReadPrAt(s.worlds, prAt, number, pr)
      && CheckedAt(s.worlds, statusAt, pr.head, Lookup(s.quarantine, number))
      && AssessedAt(policy, s.worlds, at, number, pr, s.revision) && (number, pr.head) in s.assessedBases
    case Confirmed(_, number, pr, prAt, statusAt, assessAt, at) =>
      && Running(s) && s.runsAt <= prAt <= statusAt <= assessAt <= at < |s.worlds|
      && ReadPrAt(s.worlds, prAt, number, pr)
      && CheckedAt(s.worlds, statusAt, pr.head, Lookup(s.quarantine, number))
      && AssessedAt(policy, s.worlds, assessAt, number, pr, s.revision) && s.worlds[at].base == s.revision
  }

  /** Everything a request owes: what was read, in which order, and what it said. */
  ghost predicate Justified(policy: Policy, ws: seq<World>, r: Request) {
    && r.revision != "" && r.runsAt <= r.prAt <= r.statusAt <= r.assessAt <= r.baseAt <= r.putAt < |ws|
    && ws[r.runsAt].runs.Some? && Collect(ws[r.runsAt].runs.value).Ok?
    && r.number in ws[r.prAt].prs && ws[r.prAt].prs[r.number] == Pr(r.head, BASE_BRANCH, true, false, false)
    && CheckedAt(ws, r.statusAt, r.head, OwnFailures(ws[r.runsAt].runs.value, r.number))
    && r.number in ws[r.assessAt].prs && ws[r.assessAt].prs[r.number].head == r.head
    && ws[r.assessAt].base == r.revision && policy(r.revision, r.head) == Assessed(true)
    && ws[r.baseAt].base == r.revision
  }

  ghost predicate Inv(policy: Policy, s: State) {
    s.worlds != [] && PhaseInv(policy, s) && forall r :: r in s.log ==> Justified(policy, s.worlds, r)
  }

  lemma StepKeepsInv(policy: Policy, s: State, s': State)
    requires s.worlds != [] && Inv(policy, s) && Step(policy, s, s')
    ensures Inv(policy, s')
  {
    hide Inv, EnvStep, StartStep, HistoryStep, ListStep, PrStep, StatusStep, AssessStep, RefetchStep, PutStep,
      CrashStep, RestartStep;
    if EnvStep(s, s') {
      WorldsGrow(policy, s, s');
    } else if PutStep(s, s') {
      PutIsJustified(policy, s, s');
    } else if PrStep(s, s') {
      PrKeepsPhase(policy, s, s');
    } else if StatusStep(s, s') {
      StatusKeepsPhase(policy, s, s');
    } else if AssessStep(policy, s, s') {
      AssessKeepsPhase(policy, s, s');
    } else if RefetchStep(s, s') {
      RefetchKeepsPhase(policy, s, s');
    } else {
      TurnsKeepPhase(policy, s, s');
    }
  }

  lemma WorldsGrow(policy: Policy, s: State, s': State)
    requires Inv(policy, s) && EnvStep(s, s')
    ensures Inv(policy, s')
  {
    hide Reads, Hold, Collect, OwnFailures, GatesGreen, Visible;
    var w :| s' == s.(worlds := s.worlds + [w]);
    forall r | r in s'.log ensures Justified(policy, s'.worlds, r) { assert Justified(policy, s.worlds, r); }
  }

  lemma PutIsJustified(policy: Policy, s: State, s': State)
    requires Inv(policy, s) && PutStep(s, s')
    ensures Inv(policy, s')
  {
    hide Hold, GatesGreen, Visible;
  }

  lemma TurnsKeepPhase(policy: Policy, s: State, s': State)
    requires Inv(policy, s)
    requires StartStep(s, s') || HistoryStep(s, s') || ListStep(s, s') || CrashStep(s, s') || RestartStep(s, s')
    ensures Inv(policy, s')
  {
    hide Justified, Collect, OwnFailures, CheckedAt, AssessedAt, ReadPrAt;
  }

  lemma PrKeepsPhase(policy: Policy, s: State, s': State)
    requires Inv(policy, s) && PrStep(s, s')
    ensures Inv(policy, s')
  {
    hide Justified, Reads, CheckedAt, AssessedAt;
  }

  lemma StatusKeepsPhase(policy: Policy, s: State, s': State)
    requires Inv(policy, s) && StatusStep(s, s')
    ensures Inv(policy, s')
  {
    hide Justified, Reads, AssessedAt, Visible, Hold, GatesGreen, Lookup, StatusesOf;
  }

  lemma AssessKeepsPhase(policy: Policy, s: State, s': State)
    requires Inv(policy, s) && AssessStep(policy, s, s')
    ensures Inv(policy, s')
  {
    hide Justified, Reads, Visible, GatesGreen, Hold, Lookup, StatusesOf, CheckedAt;
    CheckedInThePast(s.worlds, s.phase.statusAt, s.phase.pr.head, Lookup(s.quarantine, s.phase.number));
  }

  lemma CheckedInThePast(ws: seq<World>, at: nat, head: Sha, fs: seq<QueueFailure>)
    requires CheckedAt(ws, at, head, fs)
    ensures at < |ws|
  {
  }

  lemma RefetchKeepsPhase(policy: Policy, s: State, s': State)
    requires Inv(policy, s) && RefetchStep(s, s')
    ensures Inv(policy, s')
  {
    hide Justified, Reads, CheckedAt, ReadPrAt, Lookup;
  }

  // ---- Runs -----------------------------------------------------------------------------------------------

  ghost predicate IsRun(policy: Policy, run: seq<State>) {
    && run != [] && Init(run[0]) && (forall i :: 0 <= i < |run| ==> run[i].worlds != [])
    && forall i :: 0 <= i < |run| - 1 ==> Step(policy, run[i], run[i + 1])
  }

  /** Whatever interleaves, every request the controller ever sends is justified. */
  lemma {:induction false} RequestsAreJustified(policy: Policy, run: seq<State>, i: nat)
    requires IsRun(policy, run) && i < |run|
    ensures Inv(policy, run[i])
  {
    if i > 0 {
      RequestsAreJustified(policy, run, i - 1);
      assert Step(policy, run[i - 1], run[(i - 1) + 1]);
      StepKeepsInv(policy, run[i - 1], run[i]);
    }
  }
}
