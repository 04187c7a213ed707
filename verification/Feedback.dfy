/** The delayed, sparse feedback channel, over every interleaving of enqueues and delivery calls. */
module Feedback {
  import opened Posterior
  import opened Shrinkage

  /** One call on the channel; a label the draw rejects is dropped at once. */
  datatype Op =
    | Queue(step: nat, ctx: Ctx, arm: nat, success: bool, accepted: bool, jitter: nat)
    | Deliver(now: nat)

  /** A queued label, named by the position of its call in the trace, and a delivery of it. */
  datatype Delivery = Delivery(source: nat, at: nat)

  datatype State = State(pending: seq<nat>, log: seq<Delivery>)

  function Arrival(delay: nat, o: Op): nat
    requires o.Queue?
  {
    o.step + delay + o.jitter
  }

  predicate Labels(t: seq<Op>, ids: seq<nat>) {
    forall k :: 0 <= k < |ids| ==> ids[k] < |t| && t[ids[k]].Queue? && t[ids[k]].accepted
  }

  function DueNow(delay: nat, t: seq<Op>, ids: seq<nat>, now: nat): (r: seq<nat>)
    requires Labels(t, ids)
  {
    if ids == [] then []
    else
      var rest := DueNow(delay, t, ids[..|ids| - 1], now);
      var i := ids[|ids| - 1];
      if Arrival(delay, t[i]) <= now then rest + [i] else rest
  }

  function NotYet(delay: nat, t: seq<Op>, ids: seq<nat>, now: nat): (r: seq<nat>)
    requires Labels(t, ids)
  {
    if ids == [] then []
    else
      var rest := NotYet(delay, t, ids[..|ids| - 1], now);
      var i := ids[|ids| - 1];
      if Arrival(delay, t[i]) <= now then rest else rest + [i]
  }

  lemma {:induction false} DueMembers(delay: nat, t: seq<Op>, ids: seq<nat>, now: nat, i: nat)
    requires Labels(t, ids)
    ensures i in DueNow(delay, t, ids, now) <==> i in ids && Arrival(delay, t[i]) <= now
    ensures i in NotYet(delay, t, ids, now) <==> i in ids && Arrival(delay, t[i]) > now
  {
    if ids == [] {
      assert DueNow(delay, t, ids, now) == NotYet(delay, t, ids, now) == [];
    } else {
      var init, x := ids[..|ids| - 1], ids[|ids| - 1];
      DueMembers(delay, t, init, now, i);
      assert ids == init + [x];
      assert i in ids <==> i in init || i == x;
      var d, n := DueNow(delay, t, init, now), NotYet(delay, t, init, now);
      assert i in d + [x] <==> i in d || i == x;
      assert i in n + [x] <==> i in n || i == x;
      if Arrival(delay, t[x]) <= now {
        assert DueNow(delay, t, ids, now) == d + [x] && NotYet(delay, t, ids, now) == n;
      } else {
        assert DueNow(delay, t, ids, now) == d && NotYet(delay, t, ids, now) == n + [x];
      }
    }
  }

  lemma {:induction false} DueIncreasing(delay: nat, t: seq<Op>, ids: seq<nat>, now: nat)
    requires Labels(t, ids) && Increasing(ids)
    ensures Increasing(DueNow(delay, t, ids, now)) && Increasing(NotYet(delay, t, ids, now))
    ensures |DueNow(delay, t, ids, now)| + |NotYet(delay, t, ids, now)| == |ids|
  {
    if ids != [] {
      var init, i := ids[..|ids| - 1], ids[|ids| - 1];
      DueIncreasing(delay, t, init, now);
      var d, n := DueNow(delay, t, init, now), NotYet(delay, t, init, now);
      forall a | 0 <= a < |d| ensures d[a] < i {
        DueMembers(delay, t, init, now, d[a]);
      }
      forall a | 0 <= a < |n| ensures n[a] < i {
        DueMembers(delay, t, init, now, n[a]);
      }
    }
  }

  lemma SplitDue(delay: nat, t: seq<Op>, ids: seq<nat>, now: nat)
    requires Labels(t, ids) && Increasing(ids)
    ensures var d, n := DueNow(delay, t, ids, now), NotYet(delay, t, ids, now);
      && Increasing(d) && Increasing(n) && |d| + |n| == |ids| && Labels(t, d) && Labels(t, n)
      && (forall i: nat :: i in d <==> i in ids && Arrival(delay, t[i]) <= now)
      && (forall i: nat :: i in n <==> i in ids && Arrival(delay, t[i]) > now)
  {
    DueIncreasing(delay, t, ids, now);
    DueAreLabels(delay, t, ids, now);
    forall i: nat {
      DueMembers(delay, t, ids, now, i);
    }
  }

  ghost predicate Increasing(ids: seq<nat>) {
    forall a, b :: 0 <= a < b < |ids| ==> ids[a] < ids[b]
  }

  function Stamp(ids: seq<nat>, at: nat): (r: seq<Delivery>)
    ensures |r| == |ids| && forall k :: 0 <= k < |ids| ==> r[k] == Delivery(ids[k], at)
  {
    seq(|ids|, k requires 0 <= k < |ids| => Delivery(ids[k], at))
  }

  /** What the channel has done after a trace of calls. */
  function Run(delay: nat, t: seq<Op>): (s: State)
    ensures Labels(t, s.pending)
    ensures forall k :: 0 <= k < |s.log| ==> s.log[k].source < |t| && t[s.log[k].source].Queue? && s.log[k].at < |t|
  {
    if t == [] then State([], [])
    else
      var n := |t| - 1;
      var s := Run(delay, t[..n]);
      match t[n]
      case Queue(_, _, _, _, accepted, _) => if accepted then State(s.pending + [n], s.log) else s
      case Deliver(now) =>
        assert Labels(t, s.pending);
        var due := DueNow(delay, t, s.pending, now);
        DueAreLabels(delay, t, s.pending, now);
        State(NotYet(delay, t, s.pending, now), s.log + Stamp(due, n))
  }

  lemma {:induction false} DueAreLabels(delay: nat, t: seq<Op>, ids: seq<nat>, now: nat)
    requires Labels(t, ids)
    ensures Labels(t, DueNow(delay, t, ids, now)) && Labels(t, NotYet(delay, t, ids, now))
  {
    if ids != [] { DueAreLabels(delay, t, ids[..|ids| - 1], now); }
  }

  // ---- Exactly once, in order, at the first chance ---------------------------------------------

  ghost predicate Accepted(t: seq<Op>, i: nat) {
    i < |t| && t[i].Queue? && t[i].accepted
  }

  /** The call at j is a delivery call after the label at i was queued, at or after its arrival. */
  ghost predicate CanDeliver(delay: nat, t: seq<Op>, i: nat, j: nat) {
    Accepted(t, i) && i < j < |t| && t[j].Deliver? && Arrival(delay, t[i]) <= t[j].now
  }

  ghost predicate FirstChance(delay: nat, t: seq<Op>, i: nat, j: nat) {
    CanDeliver(delay, t, i, j) && forall k :: i < k < j ==> !CanDeliver(delay, t, i, k)
  }

  /** Deliveries are ordered by call, then by queue position, without repetition. */
  ghost predicate InOrder(log: seq<Delivery>) {
    forall a, b :: 0 <= a < b < |log| ==>
      log[a].at < log[b].at || (log[a].at == log[b].at && log[a].source < log[b].source)
  }

  ghost predicate Logged(log: seq<Delivery>, i: nat, j: nat) { Delivery(i, j) in log }

  ghost function AcceptedCount(t: seq<Op>): nat {
    if t == [] then 0
    else AcceptedCount(t[..|t| - 1]) + if t[|t| - 1].Queue? && t[|t| - 1].accepted then 1 else 0
  }

  lemma PrefixChances(delay: nat, t: seq<Op>, n: nat)
    requires n < |t|
    ensures forall i: nat, j: nat :: j < n ==> (CanDeliver(delay, t[..n], i, j) <==> CanDeliver(delay, t, i, j))
  {
  }

  ghost predicate Explains(delay: nat, t: seq<Op>, s: State) {
    && Increasing(s.pending) && InOrder(s.log)
    && (forall i: nat, j: nat :: Logged(s.log, i, j) <==> FirstChance(delay, t, i, j))
    && (forall i: nat :: i in s.pending <==> Accepted(t, i) && forall j: nat :: !CanDeliver(delay, t, i, j))
    && AcceptedCount(t) == |s.log| + |s.pending|
  }

  /** Every accepted label is delivered by the first call that may, and by no other; the rest are pending in order. */
  lemma {:induction false} DeliveredAtFirstChance(delay: nat, t: seq<Op>)
    ensures Explains(delay, t, Run(delay, t))
  {
    if t != [] {
      var n := |t| - 1;
      var t', s', s := t[..n], Run(delay, t[..n]), Run(delay, t);
      DeliveredAtFirstChance(delay, t');
      PrefixChances(delay, t, n);
      if t[n].Deliver? {
        DeliverStep(delay, t, s', s);
      } else {
        QueueStep(delay, t, s', s);
      }
    }
  }

  lemma QueueStep(delay: nat, t: seq<Op>, s': State, s: State)
    requires t != [] && t[|t| - 1].Queue? && s' == Run(delay, t[..|t| - 1]) && s == Run(delay, t)
    requires Explains(delay, t[..|t| - 1], s')
    ensures Explains(delay, t, s)
  {
    var n := |t| - 1;
    var t' := t[..n];
    assert s.log == s'.log && Labels(t', s'.pending);
    assert s.pending == if t[n].accepted then s'.pending + [n] else s'.pending;
    QueuedLater(delay, t, n);
    hide Run, CanDeliver, FirstChance, Accepted;
    assert AcceptedCount(t) == AcceptedCount(t') + if t[n].accepted then 1 else 0;
    hide AcceptedCount;
    forall i: nat ensures i in s.pending <==> Accepted(t, i) && forall j: nat :: !CanDeliver(delay, t, i, j) {
      assert i in s'.pending <==> Accepted(t', i) && forall j: nat :: !CanDeliver(delay, t', i, j);
    }
  }

  /** A queued label gives no earlier label a chance, and has had none itself. */
  lemma QueuedLater(delay: nat, t: seq<Op>, n: nat)
    requires |t| == n + 1 && t[n].Queue?
    ensures forall i: nat, j: nat :: CanDeliver(delay, t, i, j) <==> CanDeliver(delay, t[..n], i, j)
    ensures forall i: nat, j: nat :: FirstChance(delay, t, i, j) <==> FirstChance(delay, t[..n], i, j)
    ensures forall i: nat :: Accepted(t, i) <==> Accepted(t[..n], i) || (i == n && t[n].accepted)
    ensures forall j: nat :: !CanDeliver(delay, t, n, j)
  {
    PrefixChances(delay, t, n);
    forall i: nat, j: nat ensures CanDeliver(delay, t, i, j) <==> CanDeliver(delay, t[..n], i, j) {}
    hide CanDeliver;
    forall i: nat, j: nat ensures FirstChance(delay, t, i, j) <==> FirstChance(delay, t[..n], i, j) {}
  }

  /** Whether the last call, a delivery, is the first chance of label i. */
  lemma LastChance(delay: nat, t: seq<Op>, t': seq<Op>, n: nat, i: nat)
    requires |t| == n + 1 && t[n].Deliver? && t' == t[..n]
    ensures CanDeliver(delay, t, i, n) <==> Accepted(t', i) && Arrival(delay, t[i]) <= t[n].now
    ensures FirstChance(delay, t, i, n) <==> CanDeliver(delay, t, i, n) && forall j: nat :: !CanDeliver(delay, t', i, j)
    ensures forall j: nat :: j < n ==> (FirstChance(delay, t, i, j) <==> FirstChance(delay, t', i, j))
    ensures (forall j: nat :: !CanDeliver(delay, t, i, j))
      <==> !CanDeliver(delay, t, i, n) && forall j: nat :: !CanDeliver(delay, t', i, j)
  {
    PrefixChances(delay, t, n);
  }

  lemma DeliverLog(delay: nat, t: seq<Op>, s': State, s: State, i: nat, j: nat)
    requires t != [] && t[|t| - 1].Deliver? && s' == Run(delay, t[..|t| - 1]) && s == Run(delay, t)
    requires Explains(delay, t[..|t| - 1], s')
    ensures Logged(s.log, i, j) <==> FirstChance(delay, t, i, j)
  {
    var n := |t| - 1;
    SplitDue(delay, t, s'.pending, t[n].now);
    var due := DueNow(delay, t, s'.pending, t[n].now);
    LastChance(delay, t, t[..n], n, i);
    hide DueNow, NotYet, CanDeliver, FirstChance, Run, Increasing, InOrder;
    StampedLog(s'.log, due, n, i, j);
    assert s.log == s'.log + Stamp(due, n) by { RunDeliver(delay, t); }
    if j >= n {
      assert !Logged(s'.log, i, j);
      if j > n { NoLaterChance(delay, t, i, j); }
    }
  }

  lemma RunDeliver(delay: nat, t: seq<Op>)
    requires t != [] && t[|t| - 1].Deliver?
    ensures var s := Run(delay, t[..|t| - 1]);
      Labels(t, s.pending) && Run(delay, t) == State(NotYet(delay, t, s.pending, t[|t| - 1].now),
        s.log + Stamp(DueNow(delay, t, s.pending, t[|t| - 1].now), |t| - 1))
  {
  }

  lemma NoLaterChance(delay: nat, t: seq<Op>, i: nat, j: nat)
    requires j >= |t|
    ensures !FirstChance(delay, t, i, j)
  {
  }

  lemma StampedLog(log: seq<Delivery>, due: seq<nat>, n: nat, i: nat, j: nat)
    ensures Logged(log + Stamp(due, n), i, j) <==> Logged(log, i, j) || (j == n && i in due)
  {
    var st := Stamp(due, n);
    assert Delivery(i, j) in st <==> j == n && i in due by {
      if j == n && i in due {
        var k :| 0 <= k < |due| && due[k] == i;
        assert st[k] == Delivery(i, j);
      }
    }
  }

  lemma DeliverPending(delay: nat, t: seq<Op>, s': State, s: State, i: nat)
    requires t != [] && t[|t| - 1].Deliver? && s' == Run(delay, t[..|t| - 1]) && s == Run(delay, t)
    requires Explains(delay, t[..|t| - 1], s')
    ensures i in s.pending <==> Accepted(t, i) && forall j: nat :: !CanDeliver(delay, t, i, j)
  {
    hide DueNow, NotYet, Run, Increasing, InOrder, FirstChance, CanDeliver, Logged;
    var n := |t| - 1;
    SplitDue(delay, t, s'.pending, t[n].now);
    LastChance(delay, t, t[..n], n, i);
    RunDeliver(delay, t);
  }

  lemma DeliverStep(delay: nat, t: seq<Op>, s': State, s: State)
    requires t != [] && t[|t| - 1].Deliver? && s' == Run(delay, t[..|t| - 1]) && s == Run(delay, t)
    requires Explains(delay, t[..|t| - 1], s')
    ensures Explains(delay, t, s)
  {
    hide DueNow, NotYet, CanDeliver, FirstChance, Run, Logged;
    SplitDue(delay, t, s'.pending, t[|t| - 1].now);
    RunDeliver(delay, t);
    forall i: nat, j: nat ensures Logged(s.log, i, j) <==> FirstChance(delay, t, i, j) {
      DeliverLog(delay, t, s', s, i, j);
    }
    forall i: nat ensures i in s.pending <==> Accepted(t, i) && forall j: nat :: !CanDeliver(delay, t, i, j) {
      DeliverPending(delay, t, s', s, i);
    }
  }

  // ---- In an episode ---------------------------------------------------------------------------

  /** The draws of one step of an episode: the routed request, its outcome, the label draw and its jitter. */
  datatype Draw = Draw(ctx: Ctx, arm: nat, success: bool, accepted: bool, jitter: nat)

  function QueueOf(s: nat, d: Draw): Op { Queue(s, d.ctx, d.arm, d.success, d.accepted, d.jitter) }

  /** Each step delivers what is due before it routes and queues its own outcome. */
  function Episode(draws: seq<Draw>): (t: seq<Op>)
    ensures |t| == 2 * |draws|
  {
    if draws == [] then []
    else
      var s := |draws| - 1;
      Episode(draws[..s]) + [Deliver(s), QueueOf(s, draws[s])]
  }

  lemma {:induction false} EpisodeAt(draws: seq<Draw>, s: nat)
    requires s < |draws|
    ensures Episode(draws)[2 * s] == Deliver(s) && Episode(draws)[2 * s + 1] == QueueOf(s, draws[s])
  {
    if s < |draws| - 1 { EpisodeAt(draws[..|draws| - 1], s); }
  }

  lemma EpisodeChance(delay: nat, draws: seq<Draw>, s: nat, u: nat)
    requires s < |draws|
    ensures CanDeliver(delay, Episode(draws), 2 * s + 1, 2 * u)
      <==> draws[s].accepted && s < u < |draws| && s + delay + draws[s].jitter <= u
    ensures !CanDeliver(delay, Episode(draws), 2 * s + 1, 2 * u + 1)
  {
    hide Episode;
    EpisodeAt(draws, s);
    if u < |draws| { EpisodeAt(draws, u); }
  }

  function Max(x: nat, y: nat): nat { if x > y then x else y }

  /** A label accepted at step s reaches the policy exactly at step max(s + 1, s + delay + jitter), if the episode
      lasts. */
  lemma EpisodeDelivery(delay: nat, draws: seq<Draw>, s: nat, u: nat)
    requires s < |draws|
    ensures Logged(Run(delay, Episode(draws)).log, 2 * s + 1, 2 * u)
      <==> draws[s].accepted && u == Max(s + 1, s + delay + draws[s].jitter) && u < |draws|
  {
    hide Run, Logged, CanDeliver, Episode;
    var t, src, first := Episode(draws), 2 * s + 1, Max(s + 1, s + delay + draws[s].jitter);
    DeliveredAtFirstChance(delay, t);
    EpisodeChance(delay, draws, s, u);
    EpisodeChance(delay, draws, s, first);
    if u == first {
      forall k: nat | k < 2 * u ensures !CanDeliver(delay, t, src, k) {
        EpisodeChance(delay, draws, s, k / 2);
        assert k == 2 * (k / 2) || k == 2 * (k / 2) + 1;
      }
    }
  }

  // ---- The channel, wired to the policy that learns from it --------------------------------------

  datatype Item = Item(arrive: nat, ctx: Ctx, arm: nat, reward: real)

  function ItemOf(delay: nat, o: Op): Item
    requires o.Queue?
  {
    Item(Arrival(delay, o), o.ctx, o.arm, if o.success then 1.0 else 0.0)
  }

  function ItemsOf(delay: nat, t: seq<Op>, ids: seq<nat>): (r: seq<Item>)
    requires Labels(t, ids)
    ensures |r| == |ids|
  {
    seq(|ids|, k requires 0 <= k < |ids| => ItemOf(delay, t[ids[k]]))
  }

  function ObsOf(o: Op): Obs
    requires o.Queue?
  {
    Obs(o.ctx, o.arm, if o.success then 1.0 else 0.0)
  }

  /** The observations a delivery log stands for. */
  function Observed(t: seq<Op>, log: seq<Delivery>): (r: seq<Obs>)
    requires forall k :: 0 <= k < |log| ==> log[k].source < |t| && t[log[k].source].Queue?
    ensures |r| == |log|
  {
    seq(|log|, k requires 0 <= k < |log| => ObsOf(t[log[k].source]))
  }

  class FeedbackChannel {
    const delay: nat
    const policy: CatalogPriorMean
    var pending: seq<Item>
    var delivered: nat
    var enqueued: nat
    var dropped: nat
    ghost var trace: seq<Op>

    ghost predicate Valid()
      reads this, policy
    {
      && policy.Valid()
      && (forall k :: 0 <= k < |trace| && trace[k].Queue? ==> trace[k].arm < N_ARMS)
      && var s := Run(delay, trace);
      && pending == ItemsOf(delay, trace, s.pending)
      && policy.history == Observed(trace, s.log)
      && delivered == |s.log| && enqueued == delivered + |pending|
      && enqueued + dropped == QueueCount(trace)
    }

    constructor (delay: nat)
      ensures Valid() && trace == [] && this.delay == delay && fresh(policy)
    {
      this.delay := delay;
      policy := new CatalogPriorMean();
      pending := [];
      delivered, enqueued, dropped := 0, 0, 0;
      trace := [];
    }

    /** accepted and jitter are the two draws of the call. */
    method Enqueue(step: nat, ctx: Ctx, arm: nat, success: bool, accepted: bool, jitter: nat)
      requires Valid() && arm < N_ARMS
      modifies this
      ensures Valid() && trace == old(trace) + [Queue(step, ctx, arm, success, accepted, jitter)]
      ensures !accepted ==> pending == old(pending) && dropped == old(dropped) + 1 && enqueued == old(enqueued)
      ensures accepted ==>
        && enqueued == old(enqueued) + 1 && dropped == old(dropped) && |pending| == |old(pending)| + 1
        && pending[..|pending| - 1] == old(pending)
        && var i := pending[|pending| - 1];
          && i.arrive == step + delay + jitter && i.ctx == ctx && i.arm == arm
          && i.reward == if success then 1.0 else 0.0
    {
      ghost var o := Queue(step, ctx, arm, success, accepted, jitter);
      ExtendTrace(delay, trace, o);
      trace := trace + [o];
      if !accepted {
        dropped := dropped + 1;
        return;
      }
      var arrive := step + delay + jitter;
      pending := pending + [Item(arrive, ctx, arm, if success then 1.0 else 0.0)];
      enqueued := enqueued + 1;
    }

    /** Hands every due label to the policy, in queue order; labels observed always equal labels delivered. */
    method DeliverDue(step: nat)
      requires Valid()
      modifies this, policy
      ensures Valid() && trace == old(trace) + [Deliver(step)] && policy.labels == delivered
    {
      hide DueNow, NotYet, ItemsOf, ItemsSeen, Run, Observed;
      ghost var t := trace + [Deliver(step)];
      ghost var s := Run(delay, trace);
      ExtendTrace(delay, trace, Deliver(step));
      NothingYet(delay, t, step);
      var still := [];
      var count := 0;
      for k := 0 to |pending|
        modifies policy
        invariant policy.Valid() && Labels(t, s.pending) && pending == ItemsOf(delay, t, s.pending)
        invariant Handled(delay, t, s.pending[..k], step, still, old(policy.history), policy.history, count)
      {
        HandleNext(delay, t, s.pending, k, step, still, old(policy.history), policy.history, count);
        ItemAt(delay, t, s.pending, k);
        var item := pending[k];
        if item.arrive <= step {
          policy.Observe(item.ctx, item.arm, item.reward);
          count := count + 1;
        } else {
          still := still + [item];
        }
      }
      assert s.pending[..|pending|] == s.pending;
      HandledAll(delay, old(trace), step, still, policy.history, count);
      delivered := delivered + count;
      pending := still;
      trace := t;
    }
  }

  /** The k-th label the policy has learned from is the one the k-th delivery names: its context, its arm, and 1 for a
      success, 0 for a failure. */
  ghost predicate LearnedFrom(o: Op, b: Obs) {
    o.Queue? && b.ctx == o.ctx && b.arm == o.arm && b.reward == if o.success then 1.0 else 0.0
  }

  /** Everything the policy has ever learned, and everything it still will, from the calls themselves. */
  lemma PolicyLearns(c: FeedbackChannel)
    requires c.Valid()
    ensures var s := Run(c.delay, c.trace);
      && |c.policy.history| == |s.log| && |c.pending| == |s.pending|
      && (forall k :: 0 <= k < |s.log| ==> LearnedFrom(c.trace[s.log[k].source], c.policy.history[k]))
      && forall k :: 0 <= k < |s.pending| ==>
        var o, i := c.trace[s.pending[k]], c.pending[k];
        LearnedFrom(o, Obs(i.ctx, i.arm, i.reward)) && i.arrive == o.step + c.delay + o.jitter
  {
    var s := Run(c.delay, c.trace);
    forall k | 0 <= k < |s.log| ensures LearnedFrom(c.trace[s.log[k].source], c.policy.history[k]) {
      assert c.policy.history[k] == ObsOf(c.trace[s.log[k].source]);
    }
    forall k | 0 <= k < |s.pending|
      ensures c.pending[k] == ItemOf(c.delay, c.trace[s.pending[k]])
    {
      ItemAt(c.delay, c.trace, s.pending, k);
    }
  }

  /** A label the channel accepted is learned from exactly once and at its first chance, with the outcome it was queued
      with; the policy learns from nothing else. */
  lemma EachLabelLearnedOnce(c: FeedbackChannel, i: nat, j: nat)
    requires c.Valid()
    ensures FirstChance(c.delay, c.trace, i, j) <==>
      exists k :: LearnedAt(c, k, i, j) && LearnedFrom(c.trace[i], c.policy.history[k])
    ensures forall k, l :: LearnedAt(c, k, i, j) && LearnedAt(c, l, i, j) ==> k == l
  {
    PolicyLearns(c);
    DeliveredAtFirstChance(c.delay, c.trace);
    var log := Run(c.delay, c.trace).log;
    if FirstChance(c.delay, c.trace, i, j) {
      assert Logged(log, i, j);
      var k :| 0 <= k < |log| && log[k] == Delivery(i, j);
      assert LearnedAt(c, k, i, j) && LearnedFrom(c.trace[log[k].source], c.policy.history[k]);
    }
  }

  /** The k-th label learned is the one queued by call i, delivered by call j. */
  ghost predicate LearnedAt(c: FeedbackChannel, k: int, i: nat, j: nat)
    reads c, c.policy
  {
    0 <= k < |c.policy.history| && i < |c.trace| && k < |Run(c.delay, c.trace).log|
    && Run(c.delay, c.trace).log[k] == Delivery(i, j)
  }

  /** Part-way through a delivery call: what stays, what the policy saw, how many. */
  ghost predicate Handled(delay: nat, t: seq<Op>, ids: seq<nat>, now: nat, still: seq<Item>, was: seq<Obs>,
      seen: seq<Obs>, count: nat) {
    && Labels(t, ids) && Labels(t, DueNow(delay, t, ids, now)) && Labels(t, NotYet(delay, t, ids, now))
    && still == ItemsOf(delay, t, NotYet(delay, t, ids, now))
    && seen == was + ItemsSeen(t, DueNow(delay, t, ids, now))
    && count == |DueNow(delay, t, ids, now)| && |still| + count == |ids|
  }

  lemma ItemAt(delay: nat, t: seq<Op>, ids: seq<nat>, k: nat)
    requires Labels(t, ids) && k < |ids|
    ensures ItemsOf(delay, t, ids)[k] == ItemOf(delay, t[ids[k]])
  {
  }

  lemma NothingYet(delay: nat, t: seq<Op>, now: nat)
    ensures forall was: seq<Obs> :: Handled(delay, t, [], now, [], was, was, 0)
  {
    forall was: seq<Obs> ensures Handled(delay, t, [], now, [], was, was, 0) {
      assert was + ItemsSeen(t, []) == was;
    }
  }

  lemma HandleNext(delay: nat, t: seq<Op>, ids: seq<nat>, k: nat, now: nat, still: seq<Item>, was: seq<Obs>,
      seen: seq<Obs>, count: nat)
    requires k < |ids| && Labels(t, ids) && Handled(delay, t, ids[..k], now, still, was, seen, count)
    ensures var o := t[ids[k]];
      if Arrival(delay, o) <= now then Handled(delay, t, ids[..k + 1], now, still, was, seen + [ObsOf(o)], count + 1)
      else Handled(delay, t, ids[..k + 1], now, still + [ItemOf(delay, o)], was, seen, count)
  {
    var next, i := ids[..k + 1], ids[k];
    assert next[..|next| - 1] == ids[..k];
    DueAreLabels(delay, t, next, now);
    var d, n := DueNow(delay, t, ids[..k], now), NotYet(delay, t, ids[..k], now);
    assert ItemsOf(delay, t, n + [i]) == ItemsOf(delay, t, n) + [ItemOf(delay, t[i])];
    assert ItemsSeen(t, d + [i]) == ItemsSeen(t, d) + [ObsOf(t[i])];
  }

  lemma HandledAll(delay: nat, t: seq<Op>, now: nat, still: seq<Item>, seen: seq<Obs>, count: nat)
    requires Labels(t + [Deliver(now)], Run(delay, t).pending)
    requires Handled(delay, t + [Deliver(now)], Run(delay, t).pending, now, still, Observed(t, Run(delay, t).log), seen,
      count)
    ensures var t', s' := t + [Deliver(now)], Run(delay, t + [Deliver(now)]);
      still == ItemsOf(delay, t', s'.pending) && seen == Observed(t', s'.log) && |s'.log| == |Run(delay, t).log| + count
      && QueueCount(t') == QueueCount(t)
  {
    var t' := t + [Deliver(now)];
    ExtendTrace(delay, t, Deliver(now));
    RunDeliver(delay, t');
    var s, due := Run(delay, t), DueNow(delay, t', Run(delay, t).pending, now);
    assert Observed(t', s.log + Stamp(due, |t|)) == Observed(t', s.log) + ItemsSeen(t', due);
  }

  ghost function QueueCount(t: seq<Op>): nat {
    if t == [] then 0 else QueueCount(t[..|t| - 1]) + if t[|t| - 1].Queue? then 1 else 0
  }

  ghost function ItemsSeen(t: seq<Op>, ids: seq<nat>): (r: seq<Obs>)
    requires Labels(t, ids)
    ensures |r| == |ids|
  {
    seq(|ids|, k requires 0 <= k < |ids| => ObsOf(t[ids[k]]))
  }

  lemma ExtendTrace(delay: nat, t: seq<Op>, o: Op)
    ensures (t + [o])[..|t|] == t
    ensures var s := Run(delay, t);
      && Labels(t + [o], s.pending)
      && ItemsOf(delay, t + [o], s.pending) == ItemsOf(delay, t, s.pending)
      && Observed(t + [o], s.log) == Observed(t, s.log)
  {
    assert (t + [o])[..|t|] == t;
  }
}
