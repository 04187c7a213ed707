/** Queue attribution and quarantine read off the runs and statuses themselves. */
module QueueRuns {
  import opened Wrappers
  import opened QueueHistory

  // ---- Entries as sets of runs -------------------------------------------------------------------------

  /** Run i belongs to the queue entry of PR k.pr built on k.parent. */
  ghost predicate RunOf(runs: seq<Run>, i: int, k: Key) {
    && 0 <= i < |runs| && runs[i].event == "merge_group"
    && runs[i].branch == QueueBranch("develop", k.pr, k.parent)
  }

  ghost predicate FailedOwnTree(r: Run) {
    r.conclusion in {Some("failure"), Some("timed_out"), Some("startup_failure"), Some("action_required")}
  }

  /** Still running, or passed. */
  ghost predicate NotAgainst(r: Run) {
    r.conclusion in {None, Some("success"), Some("skipped"), Some("neutral")}
  }

  ghost predicate FailedAt(runs: seq<Run>, k: Key, i: int) { RunOf(runs, i, k) && FailedOwnTree(runs[i]) }

  ghost predicate AgainstAt(runs: seq<Run>, k: Key, i: int) { RunOf(runs, i, k) && !NotAgainst(runs[i]) }

  ghost predicate Holds(runs: seq<Run>, k: Key, h: Sha) { exists i :: RunOf(runs, i, k) && runs[i].head == Some(h) }

  /** The first run of a comes before every run of b. */
  ghost predicate SeenBefore(runs: seq<Run>, a: Key, b: Key) {
    exists i :: RunOf(runs, i, a) && forall j :: 0 <= j <= i ==> !RunOf(runs, j, b)
  }

  /** Of the entries some run of which has head h, k is the one seen first the latest. */
  ghost predicate HeadEntry(runs: seq<Run>, h: Sha, k: Key) {
    Holds(runs, k, h) && forall l :: Holds(runs, l, h) && l != k ==> SeenBefore(runs, l, k)
  }

  lemma RunOfMeans(runs: seq<Run>, i: int, k: Key)
    requires 0 <= i < |runs|
    ensures RunOf(runs, i, k) <==> Relevant(runs[i]) && KeyOf(runs[i]) == k
    ensures FailedOwnTree(runs[i]) <==> OwnFailure(runs[i])
    ensures NotAgainst(runs[i]) <==> Benign(runs[i])
  {
  }

  /** Dropping the last run. */
  lemma RunOfPrefix(runs: seq<Run>, k: Key)
    requires runs != []
    ensures forall i :: i != |runs| - 1 ==> (RunOf(runs, i, k) <==> RunOf(runs[..|runs| - 1], i, k))
  {
  }

  /** The history is unusable exactly when some failing run of a queue entry has no usable time. */
  lemma UnusableExactly(runs: seq<Run>)
    ensures Collect(runs).Err? <==> exists i, k :: FailedAt(runs, k, i) && runs[i].created.None?
  {
    CollectFailsExactly(runs);
    if i :| 0 <= i < |runs| && Relevant(runs[i]) && OwnFailure(runs[i]) && runs[i].created.None? {
      RunOfMeans(runs, i, KeyOf(runs[i]));
      assert FailedAt(runs, KeyOf(runs[i]), i);
    }
    if i, k :| FailedAt(runs, k, i) && runs[i].created.None? { RunOfMeans(runs, i, k); }
  }

  // ---- Heads ----------------------------------------------------------------------------------------------

  /** An entry holds exactly the heads of its runs. */
  lemma {:induction false} HeadsAreOfRuns(runs: seq<Run>, k: Key, h: Sha)
    requires Collect(runs).Ok?
    ensures h in EntryOf(Collect(runs).value.entries, k).heads <==> Holds(runs, k, h)
  {
    if runs != [] {
      var n := |runs| - 1;
      var init, z := runs[..n], runs[n];
      HeadsAreOfRuns(init, k, h);
      RunOfMeans(runs, n, k);
      RunOfPrefix(runs, k);
      AbsorbsHead(Collect(init).value, z, k, h);
      hide AddRun, RunOf;
      if i :| RunOf(init, i, k) && init[i].head == Some(h) { assert RunOf(runs, i, k) && runs[i].head == Some(h); }
      if i :| RunOf(runs, i, k) && runs[i].head == Some(h) && i != n { assert RunOf(init, i, k); }
    }
  }

  lemma AbsorbsHead(log: Log, r: Run, k: Key, h: Sha)
    requires AddRun(log, r).Ok?
    ensures h in EntryOf(AddRun(log, r).value.entries, k).heads <==>
      h in EntryOf(log.entries, k).heads || (Relevant(r) && KeyOf(r) == k && r.head == Some(h))
  {
  }

  // ---- Order of first sight --------------------------------------------------------------------------------

  /** The entries are listed in the order their first runs appear. */
  lemma {:induction false} KeysSeenInOrder(runs: seq<Run>, i: int, j: int)
    requires Collect(runs).Ok? && 0 <= i < j < |Collect(runs).value.keys|
    ensures SeenBefore(runs, Collect(runs).value.keys[i], Collect(runs).value.keys[j])
  {
    var n := |runs| - 1;
    var init := runs[..n];
    var log := Collect(init).value;
    var a, b := Collect(runs).value.keys[i], Collect(runs).value.keys[j];
    CollectConsistent(init);
    if j < |log.keys| {
      KeysSeenInOrder(init, i, j);
      SeenLater(runs, a, b);
    } else {
      assert a == log.keys[i] && b == KeyOf(runs[n]) && b !in log.entries;
      EntryHasRun(init, a);
      hide AddRun;
      var p :| RunOf(init, p, a);
      forall q | 0 <= q <= p ensures !RunOf(runs, q, b) {
        RunOfPrefix(runs, b);
        if RunOf(init, q, b) { EntryHasRun(init, b); }
      }
      RunOfPrefix(runs, a);
      assert RunOf(runs, p, a);
    }
  }

  lemma SeenLater(runs: seq<Run>, a: Key, b: Key)
    requires runs != [] && SeenBefore(runs[..|runs| - 1], a, b)
    ensures SeenBefore(runs, a, b)
  {
    var init := runs[..|runs| - 1];
    hide RunOf;
    RunOfPrefix(runs, a);
    RunOfPrefix(runs, b);
    var i :| RunOf(init, i, a) && forall j :: 0 <= j <= i ==> !RunOf(init, j, b);
    Indexed(init, i, a);
    assert RunOf(runs, i, a);
  }

  /** A key has an entry exactly when it has a run. */
  lemma EntryHasRun(runs: seq<Run>, k: Key)
    requires Collect(runs).Ok?
    ensures k in Collect(runs).value.entries <==> exists i :: RunOf(runs, i, k)
  {
    hide RunOf, Collect;
    CollectMeans(runs, k);
    forall i | 0 <= i < |runs| ensures RunOf(runs, i, k) <==> Relevant(runs[i]) && KeyOf(runs[i]) == k {
      RunOfMeans(runs, i, k);
    }
    if i :| RunOf(runs, i, k) { Indexed(runs, i, k); }
  }

  lemma Indexed(runs: seq<Run>, i: int, k: Key)
    requires RunOf(runs, i, k)
    ensures 0 <= i < |runs|
  {
  }

  lemma SeenApart(runs: seq<Run>, a: Key, b: Key)
    requires SeenBefore(runs, a, b)
    ensures !SeenBefore(runs, b, a)
  {
    hide RunOf;
    var i :| RunOf(runs, i, a) && forall j :: 0 <= j <= i ==> !RunOf(runs, j, b);
    Indexed(runs, i, a);
    if q :| RunOf(runs, q, b) && forall j :: 0 <= j <= q ==> !RunOf(runs, j, a) {
      Indexed(runs, q, b);
    }
  }

  // ---- The entry ahead ----------------------------------------------------------------------------------------

  /** The key at i is the last one whose entry holds h. */
  ghost predicate LastHolder(keys: seq<Key>, entries: map<Key, Entry>, h: Sha, i: int)
    requires forall k :: k in keys ==> k in entries
  {
    && 0 <= i < |keys| && h in entries[keys[i]].heads
    && forall j :: i < j < |keys| ==> h !in entries[keys[j]].heads
  }

  lemma {:induction false} HeadsGoToLast(keys: seq<Key>, entries: map<Key, Entry>, h: Sha) returns (i: int)
    requires forall k :: k in keys ==> k in entries
    ensures h in HeadsOf(keys, entries) ==> LastHolder(keys, entries, h, i) && HeadsOf(keys, entries)[h] == keys[i]
    ensures h !in HeadsOf(keys, entries) ==> forall k :: k in keys ==> h !in entries[k].heads
  {
    if keys == [] { return 0; }
    var n := |keys| - 1;
    assert keys == keys[..n] + [keys[n]];
    i := HeadsGoToLast(keys[..n], entries, h);
    if h in entries[keys[n]].heads { i := n; }
  }

  /** The map of heads leads every commit to the entry that holds it, and from a shared one to the last seen of them. */
  lemma ByHeadMeans(runs: seq<Run>, h: Sha, k: Key)
    requires Collect(runs).Ok?
    ensures Look(ByHead(LogOf(runs)), h) == Some(k) <==> HeadEntry(runs, h, k)
  {
    hide Collect, Holds, SeenBefore;
    var log := LogOf(runs);
    forall l ensures l in log.keys && h in log.entries[l].heads <==> Holds(runs, l, h) {
      HeadsAreOfRuns(runs, l, h);
      if Holds(runs, l, h) { assert l in log.entries; }
    }
    var i := HeadsGoToLast(log.keys, log.entries, h);
    if h in ByHead(log) {
      var z := log.keys[i];
      forall l | Holds(runs, l, h) && l != z ensures SeenBefore(runs, l, z) {
        var j :| 0 <= j < |log.keys| && log.keys[j] == l;
        KeysSeenInOrder(runs, j, i);
      }
      assert HeadEntry(runs, h, z);
      if HeadEntry(runs, h, k) && k != z { SeenApart(runs, k, z); }
    }
  }

  // ---- Behind a failure -----------------------------------------------------------------------------------------

  ghost predicate HasFailed(runs: seq<Run>, k: Key) { exists i :: FailedAt(runs, k, i) }

  /** Some run neither passed nor is still running. */
  ghost predicate HasAgainst(runs: seq<Run>, k: Key) { exists i :: AgainstAt(runs, k, i) }

  /** The commit the m-th entry of a path ahead of k has as its head. */
  ghost function Stacked(k: Key, ks: seq<Key>, m: int): Sha
    requires 0 <= m < |ks|
  {
    if m == 0 then k.parent else ks[m - 1].parent
  }

  /** ks leads from k, entry by entry, over other PRs with no run against them to one of another PR that has such a
      run. */
  ghost predicate BehindVia(runs: seq<Run>, k: Key, ks: seq<Key>) {
    && ks != []
    && (forall m :: 0 <= m < |ks| ==> HeadEntry(runs, Stacked(k, ks, m), ks[m]) && ks[m].pr != k.pr)
    && (forall m :: 0 <= m < |ks| - 1 ==> !HasAgainst(runs, ks[m]))
    && HasAgainst(runs, ks[|ks| - 1])
  }

  lemma EntryStates(runs: seq<Run>, k: Key)
    requires Collect(runs).Ok?
    ensures k in LogOf(runs).entries <==> exists i :: RunOf(runs, i, k)
    ensures k in LogOf(runs).entries ==> (LogOf(runs).entries[k].unsuccessful <==> HasAgainst(runs, k))
    ensures k in LogOf(runs).entries ==> (LogOf(runs).entries[k].failed != {} <==> HasFailed(runs, k))
  {
    hide RunOf, Collect, FailedOwnTree, NotAgainst;
    EntryHasRun(runs, k);
    CollectMeans(runs, k);
    forall i | 0 <= i < |runs|
      ensures AgainstAt(runs, k, i) <==> Relevant(runs[i]) && KeyOf(runs[i]) == k && !Benign(runs[i])
      ensures FailedAt(runs, k, i) <==> Relevant(runs[i]) && KeyOf(runs[i]) == k && OwnFailure(runs[i])
    {
      RunOfMeans(runs, i, k);
    }
    if i :| AgainstAt(runs, k, i) { Indexed(runs, i, k); }
    if i :| FailedAt(runs, k, i) { Indexed(runs, i, k); }
  }

  /** The walk along the stack finds a failure ahead exactly when the runs lead to one. */
  lemma BehindMeans(runs: seq<Run>, k: Key)
    requires Collect(runs).Ok?
    ensures Behind(k.pr, k.parent, LogOf(runs).entries, ByHead(LogOf(runs))) <==> exists ks :: BehindVia(runs, k, ks)
  {
    hide LogOf, BehindVia, BehindAt, Collect, ByHead;
    var log, byHead := LogOf(runs), ByHead(LogOf(runs));
    if n: nat :| BehindAt(k.pr, k.parent, log.entries, byHead, n) { BehindGivesPath(runs, k, n); }
    if ks :| BehindVia(runs, k, ks) { PathGivesBehind(runs, k, ks); }
  }

  /** The first n + 1 entries ahead of one built on parent, as long as they exist. */
  ghost function PathAhead(byHead: map<Sha, Key>, parent: Sha, n: nat): (ks: seq<Key>)
    requires forall m: nat :: m <= n ==> Ahead(byHead, parent, m).Some?
    ensures |ks| == n + 1 && forall m :: 0 <= m <= n ==> ks[m] == Ahead(byHead, parent, m).value
  {
    seq(n + 1, m requires 0 <= m <= n => Ahead(byHead, parent, m).value)
  }

  lemma AheadStep(byHead: map<Sha, Key>, k: Key, ks: seq<Key>, m: nat)
    requires m < |ks| && (m > 0 ==> Ahead(byHead, k.parent, m - 1) == Some(ks[m - 1]))
    ensures Ahead(byHead, k.parent, m) == Look(byHead, Stacked(k, ks, m))
  {
  }

  lemma BehindGivesPath(runs: seq<Run>, k: Key, n: nat)
    requires Collect(runs).Ok? && BehindAt(k.pr, k.parent, LogOf(runs).entries, ByHead(LogOf(runs)), n)
    ensures exists ks :: BehindVia(runs, k, ks)
  {
    hide LogOf, HeadEntry, HasAgainst, HasFailed, ByHead, Collect, Ahead, Look, PathAhead, Stacked;
    var ks := PathAhead(ByHead(LogOf(runs)), k.parent, n);
    forall m: nat | m <= n
      ensures HeadEntry(runs, Stacked(k, ks, m), ks[m]) && ks[m].pr != k.pr && (HasAgainst(runs, ks[m]) <==> m == n)
    {
      PathEntry(runs, k, n, ks, m);
    }
    assert BehindVia(runs, k, ks);
  }

  lemma PathEntry(runs: seq<Run>, k: Key, n: nat, ks: seq<Key>, m: nat)
    requires Collect(runs).Ok? && BehindAt(k.pr, k.parent, LogOf(runs).entries, ByHead(LogOf(runs)), n) && m <= n
    requires |ks| == n + 1 && forall p: nat :: p <= n ==> Ahead(ByHead(LogOf(runs)), k.parent, p) == Some(ks[p])
    ensures HeadEntry(runs, Stacked(k, ks, m), ks[m]) && ks[m].pr != k.pr && (HasAgainst(runs, ks[m]) <==> m == n)
  {
    hide LogOf, HeadEntry, HasAgainst, HasFailed, ByHead, Collect, Ahead, Look, Stacked;
    AheadStep(ByHead(LogOf(runs)), k, ks, m);
    ByHeadMeans(runs, Stacked(k, ks, m), ks[m]);
    EntryStates(runs, ks[m]);
  }

  lemma {:induction false} AheadAlong(runs: seq<Run>, k: Key, ks: seq<Key>, m: nat)
    requires Collect(runs).Ok? && m < |ks|
    requires forall p :: 0 <= p < |ks| ==> HeadEntry(runs, Stacked(k, ks, p), ks[p])
    ensures Ahead(ByHead(LogOf(runs)), k.parent, m) == Some(ks[m])
  {
    hide LogOf, HeadEntry, ByHead, Collect, Ahead, Look;
    if m > 0 { AheadAlong(runs, k, ks, m - 1); }
    AheadStep(ByHead(LogOf(runs)), k, ks, m);
    ByHeadMeans(runs, Stacked(k, ks, m), ks[m]);
  }

  lemma PathGivesBehind(runs: seq<Run>, k: Key, ks: seq<Key>)
    requires Collect(runs).Ok? && BehindVia(runs, k, ks)
    ensures Behind(k.pr, k.parent, LogOf(runs).entries, ByHead(LogOf(runs)))
  {
    hide LogOf, HeadEntry, HasAgainst, HasFailed, ByHead, Collect, Ahead, Look;
    var log, byHead := LogOf(runs), ByHead(LogOf(runs));
    KeysKnown(log);
    forall m: nat | m < |ks|
      ensures Ahead(byHead, k.parent, m) == Some(ks[m])
      ensures ks[m] in log.entries && (log.entries[ks[m]].unsuccessful <==> HasAgainst(runs, ks[m]))
    {
      AheadAlong(runs, k, ks, m);
      HeldHasEntry(runs, Stacked(k, ks, m), ks[m]);
      EntryStates(runs, ks[m]);
    }
    assert BehindAt(k.pr, k.parent, log.entries, byHead, |ks| - 1);
  }

  lemma HeldHasEntry(runs: seq<Run>, h: Sha, k: Key)
    requires Collect(runs).Ok? && HeadEntry(runs, h, k)
    ensures k in LogOf(runs).entries
  {
    hide LogOf, RunOf, Collect;
    EntryStates(runs, k);
  }

  // ---- What is reported -----------------------------------------------------------------------------------------

  /** f names entry k, the time of its earliest failing run and the names of all of them. */
  ghost predicate FailureOfEntry(runs: seq<Run>, k: Key, f: QueueFailure) {
    && f.number == k.pr && f.parent == k.parent
    && (exists i :: FailedAt(runs, k, i) && runs[i].created == Some(f.created))
    && (forall i :: FailedAt(runs, k, i) ==> runs[i].created.Some? && f.created <= runs[i].created.value)
    && forall w :: w in f.workflows <==> exists i :: FailedAt(runs, k, i) && runs[i].name == w
  }

  /** The failures of a PR, from the runs alone: the failures of its entries that are not behind a failure. */
  lemma ReportedFromRuns(runs: seq<Run>, number: nat, f: QueueFailure)
    requires Collect(runs).Ok?
    ensures f in OwnFailures(runs, number) <==>
      exists k: Key :: k.pr == number && FailureOfEntry(runs, k, f) && !exists ks :: BehindVia(runs, k, ks)
  {
    hide LogOf, BehindVia, Behind, FailureOfEntry, OwnFailures, FailureOf, Collect;
    OwnFailuresExactly(runs, number, f);
    var log := LogOf(runs);
    forall k: Key ensures Blamed(log.entries, ByHead(log), k) && f == FailureOf(k, log.entries[k]) <==>
      FailureOfEntry(runs, k, f) && !exists ks :: BehindVia(runs, k, ks)
    {
      BehindMeans(runs, k);
      FailureFromRuns(runs, k, f);
    }
  }

  lemma FailureFromRuns(runs: seq<Run>, k: Key, f: QueueFailure)
    requires Collect(runs).Ok?
    ensures k in LogOf(runs).entries && LogOf(runs).entries[k].failed != {} ==> LogOf(runs).entries[k].created.Some?
    ensures FailureOfEntry(runs, k, f) <==>
      k in LogOf(runs).entries && LogOf(runs).entries[k].failed != {} && f == FailureOf(k, LogOf(runs).entries[k])
  {
    hide LogOf, Collect, Dated, RunOf;
    var log := LogOf(runs);
    EntryStates(runs, k);
    CollectDates(runs, k);
    DatedMeans(runs, k, EntryOf(log.entries, k));
    if FailureOfEntry(runs, k, f) {
      var i :| FailedAt(runs, k, i);
      assert HasFailed(runs, k) && RunOf(runs, i, k);
    }
  }

  lemma DatedMeans(runs: seq<Run>, k: Key, e: Entry)
    requires Dated(runs, k, e.created, e.failed)
    ensures HasFailed(runs, k) ==> e.created.Some? && FailureOfEntry(runs, k, FailureOf(k, e))
    ensures HasFailed(runs, k) ==> forall f :: FailureOfEntry(runs, k, f) ==> f == FailureOf(k, e)
  {
    hide RunOf;
    forall i ensures FailedAt(runs, k, i) <==> 0 <= i < |runs| && FailsEntry(runs[i], k) { FailsMeans(runs, k, i); }
    hide FailedAt, FailsEntry;
    if HasFailed(runs, k) {
      forall f | FailureOfEntry(runs, k, f) ensures f == FailureOf(k, e) { OneFailure(runs, k, f, FailureOf(k, e)); }
    }
  }

  lemma OneFailure(runs: seq<Run>, k: Key, f: QueueFailure, g: QueueFailure)
    requires FailureOfEntry(runs, k, f) && FailureOfEntry(runs, k, g)
    ensures f == g
  {
    hide FailedAt;
    assert f.created == g.created;
    forall w ensures w in f.workflows <==> w in g.workflows {}
  }

  lemma FailsMeans(runs: seq<Run>, k: Key, i: int)
    ensures FailedAt(runs, k, i) <==> 0 <= i < |runs| && FailsEntry(runs[i], k)
  {
    if 0 <= i < |runs| { RunOfMeans(runs, i, k); }
  }

  /** They are listed in the order their entries' first runs appear. */
  lemma ReportedInOrder(runs: seq<Run>, number: nat, i: int, j: int)
    requires Collect(runs).Ok? && 0 <= i < j < |OwnFailures(runs, number)|
    ensures var fs := OwnFailures(runs, number);
      SeenBefore(runs, Key(number, fs[i].parent), Key(number, fs[j].parent))
  {
    hide Collect, ByHead, Blamed, SeenBefore;
    CollectConsistent(runs);
    var log := Collect(runs).value;
    var p, q := BlamedFrom(log, log.keys, number, i, j);
    KeysSeenInOrder(runs, p, q);
  }

  lemma {:induction false} BlamedFrom(log: Log, keys: seq<Key>, number: nat, i: int, j: int) returns (p: int, q: int)
    requires Consistent(log) && (forall k :: k in keys ==> k in log.entries)
    requires 0 <= i < j < |BlamedList(log, keys, number)|
    ensures 0 <= p < q < |keys|
    ensures keys[p] == Key(number, BlamedList(log, keys, number)[i].parent)
    ensures keys[q] == Key(number, BlamedList(log, keys, number)[j].parent)
  {
    hide ByHead, Blamed, Consistent;
    var n := |keys| - 1;
    var rest := BlamedList(log, keys[..n], number);
    if j < |rest| {
      p, q := BlamedFrom(log, keys[..n], number, i, j);
    } else {
      p := BlamedOne(log, keys[..n], number, i);
      q := n;
    }
  }

  lemma {:induction false} BlamedOne(log: Log, keys: seq<Key>, number: nat, i: int) returns (p: int)
    requires Consistent(log) && (forall k :: k in keys ==> k in log.entries)
    requires 0 <= i < |BlamedList(log, keys, number)|
    ensures 0 <= p < |keys| && keys[p] == Key(number, BlamedList(log, keys, number)[i].parent)
  {
    hide ByHead, Blamed, Consistent;
    var n := |keys| - 1;
    if i < |BlamedList(log, keys[..n], number)| { p := BlamedOne(log, keys[..n], number, i); } else { p := n; }
  }

  // ---- Quarantine -----------------------------------------------------------------------------------------------

  ghost predicate GatePassed(ss: seq<Status>, i: int) {
    0 <= i < |ss| && ss[i].context == "gates-ran" && ss[i].state == "success"
  }

  /** f is dated at or after some success of the gate. */
  ghost predicate Counts(ss: seq<Status>, f: QueueFailure) {
    exists i :: GatePassed(ss, i) && ss[i].created.Some? && ss[i].created.value <= f.created
  }

  /** Failure i counts, none that counts is earlier, and none listed before it as early. */
  ghost predicate FirstToCount(ss: seq<Status>, fs: seq<QueueFailure>, i: int) {
    && 0 <= i < |fs| && Counts(ss, fs[i])
    && (forall j :: 0 <= j < |fs| && Counts(ss, fs[j]) ==> fs[i].created <= fs[j].created)
    && forall j :: 0 <= j < i && Counts(ss, fs[j]) ==> fs[i].created < fs[j].created
  }

  /** The bound is unusable exactly when some success of the gate has no usable time. */
  lemma {:induction false} BoundFailsExactly(ss: seq<Status>)
    ensures FirstSuccess(ss).Err? <==> exists i :: GatePassed(ss, i) && ss[i].created.None?
  {
    if ss != [] {
      BoundFailsExactly(ss[1..]);
      assert forall i :: GatePassed(ss[1..], i) ==> GatePassed(ss, i + 1) && ss[i + 1] == ss[1..][i];
      assert forall i :: GatePassed(ss, i) && i > 0 ==> GatePassed(ss[1..], i - 1) && ss[1..][i - 1] == ss[i];
      assert GatePassed(ss, 0) <==> Green(ss[0]);
    }
  }

  /** A head is held by the earliest failure dated at or after some success of its gate, the first listed of those. */
  lemma HeldExactly(ss: seq<Status>, fs: seq<QueueFailure>)
    ensures Hold(ss, fs).Err? <==> exists i :: GatePassed(ss, i) && ss[i].created.None?
    ensures Hold(ss, fs).Ok? ==> (Hold(ss, fs).value.None? <==> forall f :: f in fs ==> !Counts(ss, f))
    ensures Hold(ss, fs).Ok? && Hold(ss, fs).value.Some? ==>
      exists i :: FirstToCount(ss, fs, i) && fs[i] == Hold(ss, fs).value.value
  {
    BoundFailsExactly(ss);
    if FirstSuccess(ss).Ok? {
      FirstSuccessMeans(ss);
      var bound := FirstSuccess(ss).value;
      forall f ensures Counts(ss, f) <==> bound.Some? && f.created >= bound.value {
        if bound.Some? {
          var i :| 0 <= i < |ss| && Green(ss[i]) && ss[i].created == bound;
          assert GatePassed(ss, i);
        }
        if i :| GatePassed(ss, i) && ss[i].created.Some? && ss[i].created.value <= f.created { assert Green(ss[i]); }
      }
      hide Counts, FirstSuccess;
      if bound.Some? {
        EarliestSorts(fs, bound.value);
        if FirstFrom(ByTime(fs), bound.value).Some? {
          var i :| EarliestAt(fs, bound.value, i) && fs[i] == FirstFrom(ByTime(fs), bound.value).value;
          assert FirstToCount(ss, fs, i);
        }
      }
    }
  }

  /** Failure i is dated at or after the bound, and before all others so dated but for later ones as early. */
  ghost predicate EarliestAt(fs: seq<QueueFailure>, bound: int, i: int) {
    && 0 <= i < |fs| && fs[i].created >= bound
    && (forall j :: 0 <= j < |fs| && fs[j].created >= bound ==> fs[i].created <= fs[j].created)
    && forall j :: 0 <= j < i && fs[j].created >= bound ==> fs[i].created < fs[j].created
  }

  /** Sorting is stable: of the earliest failures past the bound the first listed comes first. */
  lemma {:induction false} EarliestSorts(fs: seq<QueueFailure>, bound: int)
    ensures FirstFrom(ByTime(fs), bound).None? <==> forall f :: f in fs ==> f.created < bound
    ensures FirstFrom(ByTime(fs), bound).Some? ==>
      exists i :: EarliestAt(fs, bound, i) && fs[i] == FirstFrom(ByTime(fs), bound).value
  {
    if fs != [] {
      hide EarliestAt;
      var n := |fs| - 1;
      var init, z := fs[..n], fs[n];
      assert fs == init + [z];
      EarliestSorts(init, bound);
      ByTimeSorts(init);
      hide ByTime;
      assert ByTime(fs) == Put(ByTime(init), z) by { Puts(fs); }
      FirstAfterPut(ByTime(init), z, bound);
      if FirstFrom(ByTime(init), bound).Some? {
        var i :| EarliestAt(init, bound, i) && init[i] == FirstFrom(ByTime(init), bound).value;
        EarliestStep(fs, bound, i);
      } else if z.created >= bound {
        assert fs[n] == z && EarliestAt(fs, bound, n) by { OnlyLast(fs, bound); }
      }
    }
  }

  lemma EarliestStep(fs: seq<QueueFailure>, bound: int, i: int)
    requires fs != [] && EarliestAt(fs[..|fs| - 1], bound, i)
    ensures 0 <= i < |fs| - 1
    ensures var n := |fs| - 1;
      if fs[n].created >= bound && fs[n].created < fs[i].created then EarliestAt(fs, bound, n)
      else EarliestAt(fs, bound, i)
  {
    var init := fs[..|fs| - 1];
    assert forall j :: 0 <= j < |init| ==> init[j] == fs[j];
  }

  lemma OnlyLast(fs: seq<QueueFailure>, bound: int)
    requires fs != [] && fs[|fs| - 1].created >= bound && forall f :: f in fs[..|fs| - 1] ==> f.created < bound
    ensures EarliestAt(fs, bound, |fs| - 1)
  {
    forall j | 0 <= j < |fs| - 1 ensures fs[j].created < bound { assert fs[j] in fs[..|fs| - 1]; }
  }

  lemma Puts(fs: seq<QueueFailure>)
    requires fs != []
    ensures ByTime(fs) == Put(ByTime(fs[..|fs| - 1]), fs[|fs| - 1])
  {
  }

  lemma {:induction false} FirstAfterPut(s: seq<QueueFailure>, f: QueueFailure, bound: int)
    requires TimeSorted(s)
    ensures var was := FirstFrom(s, bound);
      FirstFrom(Put(s, f), bound) ==
      if f.created >= bound && (was.None? || f.created < was.value.created) then Some(f) else was
  {
    FirstFromMeans(s, bound);
    if s == [] || s[|s| - 1].created <= f.created {
      FirstFromAppend(s, f, bound);
    } else {
      var init, z := s[..|s| - 1], s[|s| - 1];
      assert s == init + [z];
      FirstAfterPut(init, f, bound);
      FirstFromAppend(init, z, bound);
      FirstFromAppend(Put(init, f), z, bound);
      FirstFromMeans(init, bound);
    }
  }

  lemma {:induction false} FirstFromAppend(s: seq<QueueFailure>, f: QueueFailure, bound: int)
    ensures FirstFrom(s + [f], bound) ==
      if FirstFrom(s, bound).Some? then FirstFrom(s, bound) else if f.created >= bound then Some(f) else None
  {
    if s != [] {
      assert (s + [f])[1..] == s[1..] + [f];
      FirstFromAppend(s[1..], f, bound);
    }
  }
}
