/** What an enqueue request means, and when one is made. */
module Requests {
  import opened QueueHistory
  import opened Wrappers
  import opened StatusPage
  import opened Admission

  /** A green gate leaves a bound to quarantine by. */
  lemma GreenHasBound(ss: seq<Status>)
    requires GatesGreen(ss) && FirstSuccess(ss).Ok?
    ensures FirstSuccess(ss).value.Some?
  {
    LatestMeans(ss, GATES_CONTEXT);
    FirstSuccessMeans(ss);
    var i :| 0 <= i < |ss| && ss[i] == Latest(ss, GATES_CONTEXT).value;
    assert Green(ss[i]);
  }

  /** Statuses of a commit are only ever added. */
  ghost predicate StatusesKept(ws: seq<World>, head: Sha) {
    forall i, j :: 0 <= i <= j < |ws| ==> forall st :: st in StatusesOf(ws[i], head) ==> st in StatusesOf(ws[j], head)
  }

  /** No requested head is quarantined: every own-tree failure in the history the pass read is older than every
      success of the gate on that head, seen at any time up to the reading, as long as one page held them all. */
  lemma RequestedHeadIsClean(policy: Policy, ws: seq<World>, r: Request, f: QueueFailure, i: nat, st: Status)
    requires Justified(policy, ws, r) && StatusesKept(ws, r.head)
    requires |StatusesOf(ws[r.statusAt], r.head)| <= PAGE
    requires f in OwnFailures(ws[r.runsAt].runs.value, r.number)
    requires i <= r.statusAt && st in StatusesOf(ws[i], r.head) && Green(st)
    ensures st.created.Some? && f.created < st.created.value
  {
    hide OwnFailures, GatesGreen;
    var ss, fs := StatusesOf(ws[r.statusAt], r.head), OwnFailures(ws[r.runsAt].runs.value, r.number);
    assert CheckedAt(ws, r.statusAt, r.head, fs);
    assert st in ss;
    var k :| 0 <= k < |ss| && ss[k] == st;
    FirstSuccessMeans(ss);
    HoldExactly(ss, fs);
  }

  /** The same over every interleaving, together with the binding of policy and base to the controller's own
      revision. */
  lemma EveryRequestIsClean(policy: Policy, run: seq<State>, n: nat, r: Request, f: QueueFailure, i: nat, st: Status)
    requires IsRun(policy, run) && n < |run| && r in run[n].log && StatusesKept(run[n].worlds, r.head)
    ensures Justified(policy, run[n].worlds, r)
    ensures var ws := run[n].worlds;
      && |StatusesOf(ws[r.statusAt], r.head)| <= PAGE && i <= r.statusAt && st in StatusesOf(ws[i], r.head) && Green(st)
      && f in OwnFailures(ws[r.runsAt].runs.value, r.number)
      ==> st.created.Some? && f.created < st.created.value
  {
    hide OwnFailures, GatesGreen, Hold, Collect, StatusesKept, CheckedAt, PhaseInv;
    RequestsAreJustified(policy, run, n);
    var ws := run[n].worlds;
    if |StatusesOf(ws[r.statusAt], r.head)| <= PAGE && i <= r.statusAt && st in StatusesOf(ws[i], r.head) && Green(st)
       && f in OwnFailures(ws[r.runsAt].runs.value, r.number)
    {
      RequestedHeadIsClean(policy, ws, r, f, i, st);
    }
  }

  /** Conversely, once the gate is green and its first success postdates every own-tree failure, nothing holds the
      head. */
  lemma FreshHeadIsNotHeld(s: State, s': State)
    requires s.worlds != [] && StatusStep(s, s')
    requires var ss := Visible(StatusesOf(Current(s), s.phase.pr.head));
      GatesGreen(ss) && FirstSuccess(ss).Ok?
      && forall f, st :: f in Lookup(s.quarantine, s.phase.number) && st in ss && Green(st) && st.created.Some? ==>
        f.created < st.created.value
    ensures s'.phase.Checked? && s'.phase.pr == s.phase.pr && s'.failures == s.failures
  {
    var ss, fs := Visible(StatusesOf(Current(s), s.phase.pr.head)), Lookup(s.quarantine, s.phase.number);
    GreenHasBound(ss);
    FirstSuccessMeans(ss);
    HoldExactly(ss, fs);
  }

  /** The history is read at step i and is unreadable, or has a failing run of no usable time. */
  ghost predicate ReadsUnusable(run: seq<State>, i: nat)
    requires i + 1 < |run| && run[i].worlds != []
  {
    && HistoryStep(run[i], run[i + 1])
    && (Current(run[i]).runs.None? || Collect(Current(run[i]).runs.value).Err?)
  }

  /** From there on nothing is requested until the workflow is started afresh, whatever happens in the world. */
  lemma {:induction false} UnreadableAdmitsNothing(policy: Policy, run: seq<State>, i: nat, j: nat)
    requires IsRun(policy, run) && i < j < |run| && ReadsUnusable(run, i)
    requires forall k :: i < k < j ==> !RestartStep(run[k], run[k + 1])
    ensures run[j].phase == Finished(1) && run[j].log == run[i].log
  {
    hide Step, HistoryStep, RestartStep, Collect;
    if j == i + 1 {
      UnreadableFinishes(run[i], run[i + 1]);
    } else {
      UnreadableAdmitsNothing(policy, run, i, j - 1);
      assert Step(policy, run[j - 1], run[(j - 1) + 1]) && !RestartStep(run[j - 1], run[(j - 1) + 1]);
      FinishedStays(policy, run[j - 1], run[j]);
    }
  }

  lemma UnreadableFinishes(s: State, s': State)
    requires s.worlds != [] && HistoryStep(s, s') && (Current(s).runs.None? || Collect(Current(s).runs.value).Err?)
    ensures s'.phase == Finished(1) && s'.log == s.log
  {
    hide Collect, Reads;
  }

  lemma FinishedStays(policy: Policy, s: State, s': State)
    requires s.worlds != [] && s.phase == Finished(1) && Step(policy, s, s') && !RestartStep(s, s')
    ensures s'.phase == Finished(1) && s'.log == s.log
  {
  }

  /** An eligible, unheld head of an open, non-draft, develop-based PR. */
  ghost predicate Ready(policy: Policy, s: State) {
    && s.worlds != [] && s.phase.Reading? && Running(s)
    && var p, w := s.phase, Current(s);
       var ss := Visible(StatusesOf(w, p.pr.head));
       && p.pr == Pr(p.pr.head, BASE_BRANCH, true, false, false)
       && GatesGreen(ss) && Hold(ss, Lookup(s.quarantine, p.number)) == Ok(None)
       && p.number in w.prs && w.prs[p.number].head == p.pr.head
       && w.base == s.revision && policy(w.base, p.pr.head) == Assessed(true)
  }

  /** Conversely, while nothing moves a ready head is requested, in exactly four steps and as the only request. */
  lemma QuietWorldAdmits(policy: Policy, run: seq<State>)
    requires |run| == 5 && Ready(policy, run[0])
    requires forall i :: 0 <= i < 4 ==> Acts(policy, run[i], run[i + 1])
    ensures run[4].phase == Scanning(run[0].phase.todo) && |run[4].log| == |run[0].log| + 1
      && run[4].log[..|run[0].log|] == run[0].log
    ensures var r := run[4].log[|run[0].log|];
    r.number == run[0].phase.number && r.head == run[0].phase.pr.head && r.revision == run[0].revision
  {
    hide Hold, GatesGreen, Visible, StatusesOf, Lookup, Reads;
    var a, b, c, d, e := run[0], run[1], run[2], run[3], run[4];
    assert Acts(policy, a, b) && Acts(policy, b, c) && Acts(policy, c, d) && Acts(policy, d, e);
    ReadyIsChecked(policy, a, b);
    CheckedIsAdmissible(policy, b, c);
    AdmissibleIsConfirmed(policy, c, d);
    assert PutStep(d, e);
  }

  /** A step of the controller that neither crashes nor lets the world move. */
  ghost predicate Acts(policy: Policy, s: State, s': State) {
    && s.worlds != [] && s'.worlds != []
    && (PrStep(s, s') || StatusStep(s, s') || AssessStep(policy, s, s') || RefetchStep(s, s') || PutStep(s, s'))
  }

  lemma ReadyIsChecked(policy: Policy, s: State, s': State)
    requires Ready(policy, s) && Acts(policy, s, s')
    ensures s'.phase.Checked? && s' == s.(phase := s'.phase)
    ensures s'.phase.todo == s.phase.todo && s'.phase.number == s.phase.number && s'.phase.pr == s.phase.pr
    ensures s'.phase.statuses == Visible(StatusesOf(Current(s), s.phase.pr.head))
  {
    hide Hold, GatesGreen, Visible, StatusesOf, Lookup, Reads;
  }

  lemma CheckedIsAdmissible(policy: Policy, s: State, s': State)
    requires s.worlds != [] && s.phase.Checked? && Acts(policy, s, s') && GatesGreen(s.phase.statuses)
      && s.revision != ""
    requires s.phase.pr == Pr(s.phase.pr.head, BASE_BRANCH, true, false, false)
    requires s.phase.number in Current(s).prs && Current(s).prs[s.phase.number].head == s.phase.pr.head
    requires Current(s).base == s.revision && policy(s.revision, s.phase.pr.head) == Assessed(true)
    ensures s'.phase.Admissible?
      && s' == s.(phase := s'.phase, assessedBases := s.assessedBases[(s.phase.number, s.phase.pr.head) := s.revision])
    ensures s'.phase.todo == s.phase.todo && s'.phase.number == s.phase.number && s'.phase.pr == s.phase.pr
  {
    hide GatesGreen;
  }

  lemma AdmissibleIsConfirmed(policy: Policy, s: State, s': State)
    requires s.worlds != [] && s.phase.Admissible? && Acts(policy, s, s') && Current(s).base == s.revision
    requires (s.phase.number, s.phase.pr.head) in s.assessedBases
      && s.assessedBases[(s.phase.number, s.phase.pr.head)] == s.revision
    ensures s'.phase.Confirmed? && s' == s.(phase := s'.phase)
    ensures s'.phase.todo == s.phase.todo && s'.phase.number == s.phase.number && s'.phase.pr == s.phase.pr
  {
  }
}
