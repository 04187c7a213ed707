/** Merge-queue history: attributing failed entries along the stack, and quarantining heads. */
module QueueHistory {
  import opened Wrappers

  type Sha = string
  const BASE_BRANCH := "develop"
  const GATES_CONTEXT := "gates-ran"
  const OWN_FAILURES: set<string> := {"failure", "timed_out", "startup_failure", "action_required"}
  const BENIGN: set<string> := {"success", "skipped", "neutral"}

  /** A queue branch names the base, the PR and the commit the entry was built on. */
  datatype Branch = OtherBranch | QueueBranch(base: string, pr: nat, parent: Sha)

  /** A workflow run; a conclusion of None is still running, a time of None is an unusable timestamp. */
  datatype Run = Run(event: string, branch: Branch, head: Option<Sha>, conclusion: Option<string>, name: string,
    created: Option<int>)

  datatype Key = Key(pr: nat, parent: Sha)
  datatype Entry = Entry(heads: set<Sha>, created: Option<int>, failed: set<string>, unsuccessful: bool)
  datatype QueueFailure = QueueFailure(number: nat, parent: Sha, created: int, workflows: set<string>)

  // ---- The walk along the stack ------------------------------------------------------------------

  function Look(byHead: map<Sha, Key>, parent: Sha): Option<Key> {
    if parent in byHead then Some(byHead[parent]) else None
  }

  /** The n-th entry ahead of one built on parent. */
  ghost function Ahead(byHead: map<Sha, Key>, parent: Sha, n: nat): Option<Key> {
    if n == 0 then Look(byHead, parent)
    else match Ahead(byHead, parent, n - 1)
      case None => None
      case Some(k) => Look(byHead, k.parent)
  }

  ghost predicate Linked(entries: map<Key, Entry>, byHead: map<Sha, Key>) {
    forall h :: h in byHead ==> byHead[h] in entries
  }

  /** An entry of another PR that did not fail to verify. */
  ghost predicate Passed(number: nat, entries: map<Key, Entry>, k: Key) {
    k in entries && k.pr != number && !entries[k].unsuccessful
  }

  ghost predicate Culprit(number: nat, entries: map<Key, Entry>, k: Key) {
    k in entries && k.pr != number && entries[k].unsuccessful
  }

  ghost predicate BehindAt(number: nat, parent: Sha, entries: map<Key, Entry>, byHead: map<Sha, Key>, n: nat) {
    && Ahead(byHead, parent, n).Some? && Culprit(number, entries, Ahead(byHead, parent, n).value)
    && forall m: nat :: m < n ==>
      Ahead(byHead, parent, m).Some? && Passed(number, entries, Ahead(byHead, parent, m).value)
  }

  /** An unsuccessful entry lies ahead before any entry of the same PR. */
  ghost predicate Behind(number: nat, parent: Sha, entries: map<Key, Entry>, byHead: map<Sha, Key>) {
    exists n: nat :: BehindAt(number, parent, entries, byHead, n)
  }

  /** A set of commits the walk cannot leave, all passed, hides no culprit. */
  lemma {:induction false} ClosedWalk(number: nat, parent: Sha, entries: map<Key, Entry>, byHead: map<Sha, Key>,
      seen: set<Sha>, n: nat)
    requires parent in seen
    requires forall p :: p in seen ==> p in byHead && Passed(number, entries, byHead[p]) && byHead[p].parent in seen
    ensures Ahead(byHead, parent, n).Some? && Passed(number, entries, Ahead(byHead, parent, n).value)
    ensures Ahead(byHead, parent, n).value.parent in seen
  {
    if n > 0 { ClosedWalk(number, parent, entries, byHead, seen, n - 1); }
  }

  lemma {:induction false} NothingBeyond(byHead: map<Sha, Key>, parent: Sha, n: nat, m: nat)
    requires Ahead(byHead, parent, n).None? && n <= m
    ensures Ahead(byHead, parent, m).None?
  {
    if n < m { NothingBeyond(byHead, parent, n, m - 1); }
  }

  /** _behind_failed_entry: correct and terminating on every parent map, cyclic ones included. */
  method BehindFailedEntry(number: nat, parent: Sha, entries: map<Key, Entry>, byHead: map<Sha, Key>) returns (b: bool)
    requires Linked(entries, byHead)
    ensures b <==> Behind(number, parent, entries, byHead)
  {
    var at, seen: set<Sha> := parent, {};
    ghost var n: nat := 0;
    while at in byHead && at !in seen
      invariant seen <= byHead.Keys
      invariant Ahead(byHead, parent, n) == Look(byHead, at)
      invariant forall m: nat :: m < n ==>
        Ahead(byHead, parent, m).Some? && Passed(number, entries, Ahead(byHead, parent, m).value)
      invariant forall p :: p in seen ==>
        Passed(number, entries, byHead[p]) && (byHead[p].parent in seen || byHead[p].parent == at)
      invariant parent in seen || at == parent
      decreases byHead.Keys - seen
    {
      seen := seen + {at};
      var ahead := byHead[at];
      if ahead.pr == number {
        SamePrStops(number, parent, entries, byHead, n);
        return false;
      }
      if entries[ahead].unsuccessful {
        assert BehindAt(number, parent, entries, byHead, n);
        return true;
      }
      at, n := ahead.parent, n + 1;
    }
    if at !in byHead {
      EndOfStack(number, parent, entries, byHead, n);
    } else {
      forall k: nat ensures !BehindAt(number, parent, entries, byHead, k) {
        ClosedWalk(number, parent, entries, byHead, seen, k);
      }
    }
    b := false;
  }

  lemma SamePrStops(number: nat, parent: Sha, entries: map<Key, Entry>, byHead: map<Sha, Key>, n: nat)
    requires Ahead(byHead, parent, n).Some? && Ahead(byHead, parent, n).value.pr == number
    requires forall m: nat :: m < n ==>
      Ahead(byHead, parent, m).Some? && Passed(number, entries, Ahead(byHead, parent, m).value)
    ensures !Behind(number, parent, entries, byHead)
  {
    forall k: nat ensures !BehindAt(number, parent, entries, byHead, k) {}
  }

  lemma EndOfStack(number: nat, parent: Sha, entries: map<Key, Entry>, byHead: map<Sha, Key>, n: nat)
    requires Ahead(byHead, parent, n).None?
    requires forall m: nat :: m < n ==>
      Ahead(byHead, parent, m).Some? && Passed(number, entries, Ahead(byHead, parent, m).value)
    ensures !Behind(number, parent, entries, byHead)
  {
    forall k: nat ensures !BehindAt(number, parent, entries, byHead, k) {
      if k >= n { NothingBeyond(byHead, parent, n, k); }
    }
  }

  // ---- Blame -----------------------------------------------------------------------------------------

  /** The stack has no cycle: every entry stands strictly behind the one it was built on. */
  ghost predicate Stacked(entries: map<Key, Entry>, byHead: map<Sha, Key>, depth: map<Key, nat>) {
    && depth.Keys == entries.Keys
    && forall k :: k in entries && k.parent in byHead ==>
      byHead[k.parent] in entries && depth[byHead[k.parent]] < depth[k]
  }

  ghost predicate Blamed(entries: map<Key, Entry>, byHead: map<Sha, Key>, k: Key) {
    k in entries && entries[k].failed != {} && !Behind(k.pr, k.parent, entries, byHead)
  }

  /** b is k itself or an entry ahead of it. */
  ghost predicate AtOrAhead(byHead: map<Sha, Key>, k: Key, b: Key) {
    b == k || exists n: nat :: Ahead(byHead, k.parent, n) == Some(b)
  }

  lemma {:induction false} AheadIsShallower(entries: map<Key, Entry>, byHead: map<Sha, Key>, depth: map<Key, nat>,
      k: Key, n: nat)
    requires Stacked(entries, byHead, depth) && k in entries && Ahead(byHead, k.parent, n).Some?
    ensures Ahead(byHead, k.parent, n).value in entries && depth[Ahead(byHead, k.parent, n).value] < depth[k]
  {
    if n > 0 { AheadIsShallower(entries, byHead, depth, k, n - 1); }
  }

  lemma {:induction false} AheadComposes(byHead: map<Sha, Key>, parent: Sha, n: nat, m: nat)
    requires Ahead(byHead, parent, n).Some?
    ensures Ahead(byHead, parent, n + 1 + m) == Ahead(byHead, Ahead(byHead, parent, n).value.parent, m)
  {
    if m > 0 { AheadComposes(byHead, parent, n, m - 1); }
  }

  /** When no unsuccessful entry lacks a failing run, every failed entry's stack blames someone. */
  lemma {:induction false} SomeoneIsBlamed(entries: map<Key, Entry>, byHead: map<Sha, Key>, depth: map<Key, nat>,
      k: Key)
    requires Stacked(entries, byHead, depth)
    requires forall e :: e in entries && entries[e].unsuccessful ==> entries[e].failed != {}
    requires k in entries && entries[k].failed != {}
    ensures exists b :: Blamed(entries, byHead, b) && AtOrAhead(byHead, k, b)
    decreases depth[k]
  {
    if Behind(k.pr, k.parent, entries, byHead) {
      var n: nat :| BehindAt(k.pr, k.parent, entries, byHead, n);
      var c := Ahead(byHead, k.parent, n).value;
      AheadIsShallower(entries, byHead, depth, k, n);
      SomeoneIsBlamed(entries, byHead, depth, c);
      var b :| Blamed(entries, byHead, b) && AtOrAhead(byHead, c, b);
      if b != c {
        var m: nat :| Ahead(byHead, c.parent, m) == Some(b);
        AheadComposes(byHead, k.parent, n, m);
        assert Ahead(byHead, k.parent, n + 1 + m) == Some(b);
      } else {
        assert Ahead(byHead, k.parent, n) == Some(b);
      }
    } else {
      assert Blamed(entries, byHead, k);
    }
  }

  /** An unsuccessful entry at or ahead of k with none ahead of it. */
  ghost predicate Frontmost(entries: map<Key, Entry>, byHead: map<Sha, Key>, k: Key, f: Key) {
    && f in entries && entries[f].unsuccessful && AtOrAhead(byHead, k, f)
    && forall n: nat :: Ahead(byHead, f.parent, n).Some? ==> !UnsuccessfulAt(entries, byHead, f, n)
  }

  /** The n-th entry ahead of k did not verify. */
  ghost predicate UnsuccessfulAt(entries: map<Key, Entry>, byHead: map<Sha, Key>, k: Key, n: nat)
    requires Ahead(byHead, k.parent, n).Some?
  {
    Ahead(byHead, k.parent, n).value in entries && entries[Ahead(byHead, k.parent, n).value].unsuccessful
  }

  /** No PR has two entries at or ahead of k. */
  ghost predicate OnePerPr(byHead: map<Sha, Key>, k: Key) {
    forall a, b :: AtOrAhead(byHead, k, a) && AtOrAhead(byHead, k, b) && a.pr == b.pr ==> a == b
  }

  /** Failing makes an entry unsuccessful. */
  ghost predicate FailuresCount(entries: map<Key, Entry>) {
    forall k :: k in entries && entries[k].failed != {} ==> entries[k].unsuccessful
  }

  /** The front of the stack is blamed whenever it has a failing run. */
  lemma FrontIsBlamed(entries: map<Key, Entry>, byHead: map<Sha, Key>, k: Key, f: Key)
    requires Frontmost(entries, byHead, k, f) && entries[f].failed != {}
    ensures Blamed(entries, byHead, f)
  {
    forall n: nat ensures !BehindAt(f.pr, f.parent, entries, byHead, n) {}
  }

  lemma AheadOfStack(byHead: map<Sha, Key>, k: Key, b: Key, n: nat)
    requires AtOrAhead(byHead, k, b) && Ahead(byHead, b.parent, n).Some?
    ensures AtOrAhead(byHead, k, Ahead(byHead, b.parent, n).value)
  {
    if b != k {
      var i: nat :| Ahead(byHead, k.parent, i) == Some(b);
      AheadComposes(byHead, k.parent, i, n);
    }
  }

  /** The nearest unsuccessful entry ahead of b. */
  lemma {:induction false} NearestUnsuccessful(entries: map<Key, Entry>, byHead: map<Sha, Key>, b: Key, n: nat)
    returns (m: nat)
    requires Ahead(byHead, b.parent, n).Some? && UnsuccessfulAt(entries, byHead, b, n)
    ensures Ahead(byHead, b.parent, m).Some? && UnsuccessfulAt(entries, byHead, b, m)
    ensures forall j: nat :: j < m ==> Ahead(byHead, b.parent, j).Some? && !UnsuccessfulAt(entries, byHead, b, j)
  {
    hide UnsuccessfulAt;
    if j: nat :| j < n && Ahead(byHead, b.parent, j).Some? && UnsuccessfulAt(entries, byHead, b, j) {
      m := NearestUnsuccessful(entries, byHead, b, j);
    } else {
      m := n;
      forall j: nat | j < n ensures Ahead(byHead, b.parent, j).Some? {
        if Ahead(byHead, b.parent, j).None? { NothingBeyond(byHead, b.parent, j, n); }
      }
    }
  }

  /** Where each PR stands once in the stack, an entry with an unsuccessful one ahead is behind it. */
  lemma BehindNearest(entries: map<Key, Entry>, byHead: map<Sha, Key>, depth: map<Key, nat>, k: Key, b: Key, n: nat)
    requires Stacked(entries, byHead, depth) && b in entries && OnePerPr(byHead, k) && AtOrAhead(byHead, k, b)
    requires Ahead(byHead, b.parent, n).Some? && UnsuccessfulAt(entries, byHead, b, n)
    ensures Behind(b.pr, b.parent, entries, byHead)
  {
    var m := NearestUnsuccessful(entries, byHead, b, n);
    forall j: nat | j <= m
      ensures Ahead(byHead, b.parent, j).Some? && Ahead(byHead, b.parent, j).value in entries
        && Ahead(byHead, b.parent, j).value.pr != b.pr
    {
      AheadIsShallower(entries, byHead, depth, b, j);
      AheadOfStack(byHead, k, b, j);
    }
    assert BehindAt(b.pr, b.parent, entries, byHead, m);
  }

  /** The front of the stack decides whether anybody at or ahead of an entry is blamed: a failing run there suffices on
      every acyclic stack, and is needed when no PR stands in it twice. */
  lemma FrontDecidesBlame(entries: map<Key, Entry>, byHead: map<Sha, Key>, depth: map<Key, nat>, k: Key)
    requires Stacked(entries, byHead, depth) && k in entries && FailuresCount(entries)
    ensures (exists f :: Frontmost(entries, byHead, k, f) && entries[f].failed != {})
      ==> exists b :: Blamed(entries, byHead, b) && AtOrAhead(byHead, k, b)
    ensures OnePerPr(byHead, k) ==>
      ((exists b :: Blamed(entries, byHead, b) && AtOrAhead(byHead, k, b))
       <==> exists f :: Frontmost(entries, byHead, k, f) && entries[f].failed != {})
  {
    if f :| Frontmost(entries, byHead, k, f) && entries[f].failed != {} { FrontIsBlamed(entries, byHead, k, f); }
    hide OnePerPr;
    if OnePerPr(byHead, k) {
      if b :| Blamed(entries, byHead, b) && AtOrAhead(byHead, k, b) {
        forall n: nat | Ahead(byHead, b.parent, n).Some? ensures !UnsuccessfulAt(entries, byHead, b, n) {
          if UnsuccessfulAt(entries, byHead, b, n) { BehindNearest(entries, byHead, depth, k, b, n); }
        }
        assert Frontmost(entries, byHead, k, b);
      }
    }
  }

  // ---- Collecting entries from runs ----------------------------------------------------------------------

  datatype Log = Log(keys: seq<Key>, entries: map<Key, Entry>)

  predicate Relevant(r: Run) {
    r.event == "merge_group" && r.branch.QueueBranch? && r.branch.base == BASE_BRANCH
  }

  function KeyOf(r: Run): Key
    requires Relevant(r)
  {
    Key(r.branch.pr, r.branch.parent)
  }

  predicate OwnFailure(r: Run) { r.conclusion.Some? && r.conclusion.value in OWN_FAILURES }

  predicate Benign(r: Run) { r.conclusion.None? || r.conclusion.value in BENIGN }

  function Earlier(a: Option<int>, t: int): int {
    match a case None => t case Some(x) => if t < x then t else x
  }

  /** What one run adds to its entry. */
  function Absorb(e: Entry, r: Run): Entry
    requires OwnFailure(r) ==> r.created.Some?
  {
    var e1 := if r.head.Some? then e.(heads := e.heads + {r.head.value}) else e;
    var e2 := if OwnFailure(r) then e1.(failed := e1.failed + {r.name},
      created := Some(Earlier(e1.created, r.created.value))) else e1;
    if Benign(r) then e2 else e2.(unsuccessful := true)
  }

  function EntryOf(entries: map<Key, Entry>, k: Key): Entry {
    if k in entries then entries[k] else Entry({}, None, {}, false)
  }

  /** One run folded into the entries; a failing run with an unusable timestamp is an error. */
  function AddRun(log: Log, r: Run): Result<Log> {
    if !Relevant(r) then Ok(log)
    else if OwnFailure(r) && r.created.None? then Err
    else
      var k := KeyOf(r);
      var keys := if k in log.entries then log.keys else log.keys + [k];
      Ok(Log(keys, log.entries[k := Absorb(EntryOf(log.entries, k), r)]))
  }

  function Collect(runs: seq<Run>): Result<Log> {
    if runs == [] then Ok(Log([], map[]))
    else match Collect(runs[..|runs| - 1])
      case Err => Err
      case Ok(log) => AddRun(log, runs[|runs| - 1])
  }

  /** The last entry in insertion order wins a shared head. */
  function ByHead(log: Log): map<Sha, Key>
    requires forall k :: k in log.keys ==> k in log.entries
  {
    HeadsOf(log.keys, log.entries)
  }

  function HeadsOf(keys: seq<Key>, entries: map<Key, Entry>): (m: map<Sha, Key>)
    requires forall k :: k in keys ==> k in entries
    ensures forall h :: h in m ==> m[h] in keys
  {
    if keys == [] then map[]
    else
      var last := keys[|keys| - 1];
      HeadsOf(keys[..|keys| - 1], entries) + map h | h in entries[last].heads :: last
  }

  ghost predicate Sound(e: Entry) { (e.failed != {} <==> e.created.Some?) && (e.failed != {} ==> e.unsuccessful) }

  ghost predicate Consistent(log: Log) {
    && (forall k :: k in log.keys <==> k in log.entries)
    && (forall i, j :: 0 <= i < j < |log.keys| ==> log.keys[i] != log.keys[j])
    && forall k :: k in log.entries ==> Sound(log.entries[k])
  }

  lemma NoRuns()
    ensures Consistent(Log([], map[]))
  {
  }

  lemma AddConsistent(log: Log, r: Run)
    requires Consistent(log) && AddRun(log, r).Ok?
    ensures Consistent(AddRun(log, r).value)
  {
    if Relevant(r) {
      AbsorbSound(EntryOf(log.entries, KeyOf(r)), r);
      hide Absorb, Sound;
    }
  }

  lemma AbsorbSound(e: Entry, r: Run)
    requires Sound(e) && (OwnFailure(r) ==> r.created.Some?)
    ensures Sound(Absorb(e, r))
  {
  }

  lemma {:induction false} CollectConsistent(runs: seq<Run>)
    requires Collect(runs).Ok?
    ensures Consistent(Collect(runs).value)
  {
    hide AddRun, Consistent;
    NoRuns();
    if runs != [] {
      CollectConsistent(runs[..|runs| - 1]);
      AddConsistent(Collect(runs[..|runs| - 1]).value, runs[|runs| - 1]);
    }
  }

  /** What a collected entry says about the runs: it is there, failed, or did not verify iff one of its runs says so. */
  lemma {:induction false} CollectMeans(runs: seq<Run>, k: Key)
    requires Collect(runs).Ok?
    ensures var es := Collect(runs).value.entries;
      && (k in es <==> exists i :: 0 <= i < |runs| && Relevant(runs[i]) && KeyOf(runs[i]) == k)
      && (k in es ==> (es[k].failed != {} <==>
        exists i :: 0 <= i < |runs| && Relevant(runs[i]) && KeyOf(runs[i]) == k && OwnFailure(runs[i])))
      && (k in es ==> (es[k].unsuccessful <==>
        exists i :: 0 <= i < |runs| && Relevant(runs[i]) && KeyOf(runs[i]) == k && !Benign(runs[i])))
  {
    if runs != [] {
      var n := |runs| - 1;
      CollectMeans(runs[..n], k);
      assert forall i :: 0 <= i < n ==> runs[..n][i] == runs[i];
    }
  }

  ghost predicate FailsEntry(r: Run, k: Key) { Relevant(r) && KeyOf(r) == k && OwnFailure(r) }

  /** The earliest failing run of an entry gives its time, all of them give its names. */
  ghost predicate Dated(runs: seq<Run>, k: Key, created: Option<int>, failed: set<string>) {
    && (forall i :: 0 <= i < |runs| && FailsEntry(runs[i], k) ==>
      runs[i].created.Some? && created.Some? && created.value <= runs[i].created.value && runs[i].name in failed)
    && (created.Some? ==> exists i :: 0 <= i < |runs| && FailsEntry(runs[i], k) && runs[i].created == created)
    && forall w :: w in failed ==> exists i :: 0 <= i < |runs| && FailsEntry(runs[i], k) && runs[i].name == w
  }

  lemma {:induction false} CollectDates(runs: seq<Run>, k: Key)
    requires Collect(runs).Ok?
    ensures var e := EntryOf(Collect(runs).value.entries, k); Dated(runs, k, e.created, e.failed)
  {
    hide Dated, AddRun;
    if runs == [] {
      UndatedStart(k);
    } else {
      var n := |runs| - 1;
      var log, z := Collect(runs[..n]).value, runs[n];
      CollectDates(runs[..n], k);
      assert runs == runs[..n] + [z];
      AddRunDates(log, z, k);
      DatedStep(runs[..n], z, k, EntryOf(log.entries, k).created, EntryOf(log.entries, k).failed);
    }
  }

  lemma UndatedStart(k: Key)
    ensures Dated([], k, None, {})
  {
  }

  lemma AddRunDates(log: Log, r: Run, k: Key)
    requires AddRun(log, r).Ok?
    ensures FailsEntry(r, k) ==> r.created.Some?
    ensures var e, e' := EntryOf(log.entries, k), EntryOf(AddRun(log, r).value.entries, k);
      && e'.created == (if FailsEntry(r, k) then Some(Earlier(e.created, r.created.value)) else e.created)
      && e'.failed == if FailsEntry(r, k) then e.failed + {r.name} else e.failed
  {
  }

  lemma DatedStep(runs: seq<Run>, r: Run, k: Key, created: Option<int>, failed: set<string>)
    requires Dated(runs, k, created, failed) && (FailsEntry(r, k) ==> r.created.Some?)
    ensures Dated(runs + [r], k, if FailsEntry(r, k) then Some(Earlier(created, r.created.value)) else created,
                  if FailsEntry(r, k) then failed + {r.name} else failed)
  {
    hide FailsEntry;
    var all := runs + [r];
    assert all[|runs|] == r && forall i :: 0 <= i < |runs| ==> all[i] == runs[i];
    if created.Some? {
      var i :| 0 <= i < |runs| && FailsEntry(runs[i], k) && runs[i].created == created;
      assert FailsEntry(all[i], k) && all[i].created == created;
    }
    forall w | w in failed ensures exists i :: 0 <= i < |all| && FailsEntry(all[i], k) && all[i].name == w {
      var i :| 0 <= i < |runs| && FailsEntry(runs[i], k) && runs[i].name == w;
      assert FailsEntry(all[i], k);
    }
  }

  function FailureOf(k: Key, e: Entry): QueueFailure
    requires e.created.Some?
  {
    QueueFailure(k.pr, k.parent, e.created.value, e.failed)
  }

  /** The own-tree failures of one PR, in the order the entries were first seen. */
  ghost function BlamedList(log: Log, keys: seq<Key>, number: nat): (fs: seq<QueueFailure>)
    requires Consistent(log) && forall k :: k in keys ==> k in log.entries
    ensures forall f :: f in fs ==> f.number == number
  {
    if keys == [] then []
    else
      var k, rest := keys[|keys| - 1], BlamedList(log, keys[..|keys| - 1], number);
      if k.pr == number && Blamed(log.entries, ByHead(log), k) then rest + [FailureOf(k, log.entries[k])] else rest
  }

  /** What own_queue_failures attributes to a PR, given a readable history. */
  ghost function OwnFailures(runs: seq<Run>, number: nat): seq<QueueFailure>
    requires Collect(runs).Ok?
  {
    CollectConsistent(runs);
    BlamedList(Collect(runs).value, Collect(runs).value.keys, number)
  }

  /** Exactly the entries of the PR that failed and are not behind a failure. */
  lemma OwnFailuresExactly(runs: seq<Run>, number: nat, f: QueueFailure)
    requires Collect(runs).Ok?
    ensures Consistent(Collect(runs).value)
    ensures var log := Collect(runs).value;
      f in OwnFailures(runs, number) <==>
      exists k: Key :: k.pr == number && Blamed(log.entries, ByHead(log), k) && f == FailureOf(k, log.entries[k])
  {
    hide Blamed, Consistent, ByHead;
    CollectConsistent(runs);
    var log := Collect(runs).value;
    KeysKnown(log);
    BlamedListExactly(log, log.keys, number, f);
    forall k | Blamed(log.entries, ByHead(log), k) ensures k in log.keys && log.entries[k].created.Some? {
      BlamedIsKnown(log, k);
    }
  }

  lemma BlamedIsKnown(log: Log, k: Key)
    requires Consistent(log) && (forall x :: x in log.keys ==> x in log.entries) && Blamed(log.entries, ByHead(log), k)
    ensures k in log.keys && k in log.entries && log.entries[k].created.Some?
  {
  }

  lemma {:induction false} BlamedListExactly(log: Log, keys: seq<Key>, number: nat, f: QueueFailure)
    requires Consistent(log) && (forall k :: k in log.keys ==> k in log.entries)
    requires forall k :: k in keys ==> k in log.keys
    ensures f in BlamedList(log, keys, number) <==> exists k ::
      (k in keys && k.pr == number && Blamed(log.entries, ByHead(log), k) && log.entries[k].created.Some?
        && f == FailureOf(k, log.entries[k]))
  {
    hide Blamed, Consistent, ByHead;
    if keys != [] {
      var init, z := keys[..|keys| - 1], keys[|keys| - 1];
      assert keys == init + [z];
      BlamedListExactly(log, init, number, f);
      if Blamed(log.entries, ByHead(log), z) { BlamedIsKnown(log, z); }
    }
  }

  /** The entries a readable history collects to. */
  ghost function LogOf(runs: seq<Run>): (log: Log)
    requires Collect(runs).Ok?
    ensures log == Collect(runs).value && Consistent(log)
  {
    CollectConsistent(runs);
    Collect(runs).value
  }

  /** The failures returned for the entry's PR include one of that entry. */
  ghost predicate Reported(runs: seq<Run>, b: Key)
    requires Collect(runs).Ok?
  {
    exists f :: f in OwnFailures(runs, b.pr) && f.parent == b.parent
  }

  /** Exactly the blamed entries are reported. */
  lemma BlamedIsReported(runs: seq<Run>, b: Key)
    requires Collect(runs).Ok?
    ensures Blamed(LogOf(runs).entries, ByHead(LogOf(runs)), b) <==> Reported(runs, b)
  {
    hide Blamed, Consistent, ByHead, OwnFailures;
    var log := LogOf(runs);
    KeysKnown(log);
    if Blamed(log.entries, ByHead(log), b) {
      BlamedIsKnown(log, b);
      OwnFailuresExactly(runs, b.pr, FailureOf(b, log.entries[b]));
      assert FailureOf(b, log.entries[b]) in OwnFailures(runs, b.pr);
    }
    if f :| f in OwnFailures(runs, b.pr) && f.parent == b.parent {
      OwnFailuresExactly(runs, b.pr, f);
      forall k | Blamed(log.entries, ByHead(log), k) ensures k in log.keys && log.entries[k].created.Some? {
        BlamedIsKnown(log, k);
      }
      var k: Key :| k.pr == b.pr && Blamed(log.entries, ByHead(log), k) && f == FailureOf(k, log.entries[k]);
      assert k == b;
    }
  }

  /** Where nobody is blamed, nothing is reported. */
  lemma NobodyReported(runs: seq<Run>, number: nat)
    requires Collect(runs).Ok? && forall b :: !Blamed(LogOf(runs).entries, ByHead(LogOf(runs)), b)
    ensures OwnFailures(runs, number) == []
  {
    hide Blamed, ByHead, Consistent, OwnFailures;
    var fs := OwnFailures(runs, number);
    KeysKnown(LogOf(runs));
    forall f ensures f !in fs { OwnFailuresExactly(runs, number, f); }
    HasMember(fs);
  }

  lemma HasMember<T>(xs: seq<T>)
    ensures xs != [] ==> exists x :: x in xs
  {
    if xs != [] { assert xs[0] in xs; }
  }

  /** On an acyclic stack whose unsuccessful entries all have failing runs, every failed entry has a reported failure
      at or ahead of it. */
  lemma SomeoneIsReported(runs: seq<Run>, depth: map<Key, nat>, k: Key)
    requires Collect(runs).Ok? && Stacked(LogOf(runs).entries, ByHead(LogOf(runs)), depth)
    requires forall e :: e in LogOf(runs).entries && LogOf(runs).entries[e].unsuccessful ==>
      LogOf(runs).entries[e].failed != {}
    requires k in LogOf(runs).entries && LogOf(runs).entries[k].failed != {}
    ensures exists b :: Reported(runs, b) && AtOrAhead(ByHead(LogOf(runs)), k, b)
  {
    hide Consistent, ByHead, Reported, Stacked, LogOf;
    var log := LogOf(runs);
    KeysKnown(log);
    SomeoneIsBlamed(log.entries, ByHead(log), depth, k);
    var b :| Blamed(log.entries, ByHead(log), b) && AtOrAhead(ByHead(log), k, b);
    BlamedIsReported(runs, b);
  }

  ghost predicate FrontFails(log: Log, k: Key)
    requires Consistent(log)
  {
    exists f :: Frontmost(log.entries, ByHead(log), k, f) && log.entries[f].failed != {}
  }

  /** The failures returned for a history include one at or ahead of an entry of an acyclic stack when the front of that
      stack has a failing run, and only then when no PR stands in it twice. */
  lemma FrontDecidesReport(runs: seq<Run>, depth: map<Key, nat>, k: Key)
    requires Collect(runs).Ok? && Stacked(LogOf(runs).entries, ByHead(LogOf(runs)), depth)
    requires k in LogOf(runs).entries
    ensures FrontFails(LogOf(runs), k) ==> exists b :: Reported(runs, b) && AtOrAhead(ByHead(LogOf(runs)), k, b)
    ensures OnePerPr(ByHead(LogOf(runs)), k) ==>
      ((exists b :: Reported(runs, b) && AtOrAhead(ByHead(LogOf(runs)), k, b)) <==> FrontFails(LogOf(runs), k))
  {
    hide ByHead, Reported, Stacked, LogOf, OnePerPr, Frontmost, Blamed;
    var log := LogOf(runs);
    forall b ensures Blamed(log.entries, ByHead(log), b) <==> Reported(runs, b) { BlamedIsReported(runs, b); }
    FrontDecidesBlame(log.entries, ByHead(log), depth, k);
  }

  // ---- Histories that blame nobody -------------------------------------------------------------------------

  function QueueRun(pr: nat, parent: Sha, head: Sha, conclusion: string): Run {
    Run("merge_group", QueueBranch(BASE_BRANCH, pr, parent), Some(head), Some(conclusion), "ci", Some(5))
  }

  function Alone(r: Run): Entry
    requires r.created.Some?
  {
    Absorb(Entry({}, None, {}, false), r)
  }

  /** What the runs of two entries collect to. */
  lemma CollectTwo(x: Run, y: Run)
    requires Relevant(x) && Relevant(y) && KeyOf(x) != KeyOf(y) && x.created.Some? && y.created.Some?
    requires x.head.Some? && y.head.Some? && x.head != y.head
    ensures Collect([x, y]) == Ok(Log([KeyOf(x), KeyOf(y)], map[KeyOf(x) := Alone(x), KeyOf(y) := Alone(y)]))
    ensures Consistent(Collect([x, y]).value)
    ensures ByHead(Collect([x, y]).value) == map[x.head.value := KeyOf(x), y.head.value := KeyOf(y)]
  {
    CollectOne(x);
    AddSecond(x, y);
    assert [x, y][..1] == [x];
    CollectConsistent([x, y]);
    HeadsOfTwo(KeyOf(x), KeyOf(y), Alone(x), Alone(y), x.head.value, y.head.value);
  }

  lemma CollectOne(x: Run)
    requires Relevant(x) && x.created.Some?
    ensures Collect([x]) == Ok(Log([KeyOf(x)], map[KeyOf(x) := Alone(x)]))
  {
    hide Absorb;
    assert [x][..0] == [] && [] + [KeyOf(x)] == [KeyOf(x)];
    var none: map<Key, Entry> := map[];
    assert none[KeyOf(x) := Alone(x)] == map[KeyOf(x) := Alone(x)];
  }

  lemma AddSecond(x: Run, y: Run)
    requires Relevant(x) && Relevant(y) && KeyOf(x) != KeyOf(y) && x.created.Some? && y.created.Some?
    ensures AddRun(Log([KeyOf(x)], map[KeyOf(x) := Alone(x)]), y)
      == Ok(Log([KeyOf(x), KeyOf(y)], map[KeyOf(x) := Alone(x), KeyOf(y) := Alone(y)]))
  {
    hide Absorb;
    assert [KeyOf(x)] + [KeyOf(y)] == [KeyOf(x), KeyOf(y)];
    assert map[KeyOf(x) := Alone(x)][KeyOf(y) := Alone(y)] == map[KeyOf(x) := Alone(x), KeyOf(y) := Alone(y)];
  }

  lemma HeadsOfTwo(k: Key, l: Key, e: Entry, f: Entry, g: Sha, h: Sha)
    requires k != l && g != h && e.heads == {g} && f.heads == {h}
    ensures HeadsOf([k, l], map[k := e, l := f]) == map[g := k, h := l]
  {
    var es := map[k := e, l := f];
    assert [k, l][..1] == [k] && [k][..0] == [];
    assert HeadsOf([k], es) == map[g := k];
  }

  /** A failing entry built on a merely cancelled one is excused, and nobody is reported. */
  lemma CancelledFrontExcuses(number: nat)
    ensures var runs := [QueueRun(1, "base", "h1", "cancelled"), QueueRun(2, "h1", "h2", "failure")];
      Collect(runs).Ok? && OwnFailures(runs, number) == []
  {
    hide Consistent, Collect, ByHead, OwnFailures;
    var x, y := QueueRun(1, "base", "h1", "cancelled"), QueueRun(2, "h1", "h2", "failure");
    CollectTwo(x, y);
    var log := Collect([x, y]).value;
    assert Ahead(ByHead(log), "h1", 0) == Some(KeyOf(x));
    assert BehindAt(2, "h1", log.entries, ByHead(log), 0);
    NobodyReported([x, y], number);
  }

  /** So are two failing entries recorded as built on each other. No commit descends from its own descendant, so only
      rows whose head is not a commit built on the parent in their branch name can say this. */
  lemma CycleExcuses(number: nat)
    ensures var runs := [QueueRun(1, "hb", "ha", "failure"), QueueRun(2, "ha", "hb", "failure")];
      Collect(runs).Ok? && OwnFailures(runs, number) == []
  {
    hide Consistent, Collect, ByHead, OwnFailures;
    var x, y := QueueRun(1, "hb", "ha", "failure"), QueueRun(2, "ha", "hb", "failure");
    CollectTwo(x, y);
    var log := Collect([x, y]).value;
    assert Ahead(ByHead(log), "hb", 0) == Some(KeyOf(y)) && Ahead(ByHead(log), "ha", 0) == Some(KeyOf(x));
    assert BehindAt(1, "hb", log.entries, ByHead(log), 0) && BehindAt(2, "ha", log.entries, ByHead(log), 0);
    NobodyReported([x, y], number);
  }

  /** With two entries of one PR the front need not decide: a failing entry built on its own PR's cancelled one is
      reported although the front of its stack has no failing run. */
  lemma RequeuedIsReported()
    ensures var runs := [QueueRun(2, "base", "h1", "cancelled"), QueueRun(2, "h1", "h2", "failure")];
      Collect(runs).Ok? && Reported(runs, Key(2, "h1"))
      && Frontmost(LogOf(runs).entries, ByHead(LogOf(runs)), Key(2, "h1"), Key(2, "base"))
      && LogOf(runs).entries[Key(2, "base")].failed == {}
  {
    hide Consistent, Collect, ByHead, Reported;
    var x, y := QueueRun(2, "base", "h1", "cancelled"), QueueRun(2, "h1", "h2", "failure");
    CollectTwo(x, y);
    var log := LogOf([x, y]);
    assert Ahead(ByHead(log), "h1", 0) == Some(KeyOf(x));
    SamePrStops(2, "h1", log.entries, ByHead(log), 0);
    BlamedIsReported([x, y], KeyOf(y));
    forall n: nat ensures Ahead(ByHead(log), "base", n).None? { NothingBeyond(ByHead(log), "base", 0, n); }
  }

  /** The history is unusable exactly when some failing run of a queue entry has no usable time. */
  lemma {:induction false} CollectFailsExactly(runs: seq<Run>)
    ensures Collect(runs).Err?
      <==> exists i :: 0 <= i < |runs| && Relevant(runs[i]) && OwnFailure(runs[i]) && runs[i].created.None?
  {
    if runs != [] {
      var n := |runs| - 1;
      CollectFailsExactly(runs[..n]);
      assert forall i :: 0 <= i < n ==> runs[..n][i] == runs[i];
      if Collect(runs[..n]).Err? {
        var i :| 0 <= i < n && Relevant(runs[..n][i]) && OwnFailure(runs[..n][i]) && runs[..n][i].created.None?;
        assert runs[i] == runs[..n][i];
      }
    }
  }

  function Lookup(m: map<nat, seq<QueueFailure>>, number: nat): seq<QueueFailure> {
    if number in m then m[number] else []
  }

  method OwnQueueFailures(runs: seq<Run>) returns (r: Result<map<nat, seq<QueueFailure>>>)
    ensures r.Err? <==> Collect(runs).Err?
    ensures r.Ok? ==> forall number: nat :: Lookup(r.value, number) == OwnFailures(runs, number)
  {
    hide AddRun, Blamed, Consistent, Behind;
    var log := Log([], map[]);
    for k := 0 to |runs|
      invariant Collect(runs[..k]) == Ok(log)
    {
      assert runs[..k + 1][..k] == runs[..k];
      var next := AddRun(log, runs[k]);
      if next.Err? {
        ErrorSpreads(runs, k + 1);
        return Err;
      }
      log := next.value;
    }
    assert runs[..|runs|] == runs;
    CollectConsistent(runs);
    KeysKnown(log);
    var byHead := ByHead(log);
    var failures: map<nat, seq<QueueFailure>> := map[];
    for k := 0 to |log.keys|
      invariant forall x :: x in log.keys[..k] ==> x in log.entries
      invariant forall number: nat :: Lookup(failures, number) == BlamedList(log, log.keys[..k], number)
    {
      var key := log.keys[k];
      assert log.keys[..k + 1][..k] == log.keys[..k];
      var entry := log.entries[key];
      var behind := BehindFailedEntry(key.pr, key.parent, log.entries, byHead);
      BlamedEntry(log, key, behind);
      if entry.failed != {} && !behind {
        failures := failures[key.pr := Lookup(failures, key.pr) + [FailureOf(key, entry)]];
      }
    }
    assert log.keys[..|log.keys|] == log.keys;
    r := Ok(failures);
  }

  lemma {:induction false} ErrorSpreads(runs: seq<Run>, k: nat)
    requires k <= |runs| && Collect(runs[..k]).Err?
    ensures Collect(runs).Err?
    decreases |runs| - k
  {
    if k < |runs| {
      assert runs[..k + 1][..k] == runs[..k];
      ErrorSpreads(runs, k + 1);
    } else {
      assert runs[..k] == runs;
    }
  }

  lemma KeysKnown(log: Log)
    requires Consistent(log)
    ensures (forall k :: k in log.keys ==> k in log.entries) && Linked(log.entries, ByHead(log))
  {
  }

  lemma BlamedEntry(log: Log, k: Key, behind: bool)
    requires Consistent(log) && k in log.entries && (behind <==> Behind(k.pr, k.parent, log.entries, ByHead(log)))
    ensures Blamed(log.entries, ByHead(log), k) <==> log.entries[k].failed != {} && !behind
    ensures log.entries[k].failed != {} ==> log.entries[k].created.Some?
  {
  }

  // ---- Quarantine ------------------------------------------------------------------------------------------

  /** A commit status; the API lists them newest first. */
  datatype Status = Status(context: string, state: string, created: Option<int>)

  predicate Green(s: Status) { s.context == GATES_CONTEXT && s.state == "success" }

  /** Earliest success of the gate; a success with an unusable timestamp is an error. */
  function FirstSuccess(ss: seq<Status>): Result<Option<int>> {
    if ss == [] then Ok(None)
    else
      var rest, s := FirstSuccess(ss[1..]), ss[0];
      if !Green(s) then rest
      else if s.created.None? || rest.Err? then Err
      else Ok(Some(Earlier(rest.value, s.created.value)))
  }

  lemma {:induction false} FirstSuccessMeans(ss: seq<Status>)
    requires FirstSuccess(ss).Ok?
    ensures forall i :: 0 <= i < |ss| && Green(ss[i]) ==>
      (ss[i].created.Some? && FirstSuccess(ss).value.Some? && FirstSuccess(ss).value.value <= ss[i].created.value)
    ensures FirstSuccess(ss).value.Some? ==>
      exists i :: 0 <= i < |ss| && Green(ss[i]) && ss[i].created == FirstSuccess(ss).value
  {
    if ss != [] {
      FirstSuccessMeans(ss[1..]);
      assert ss == [ss[0]] + ss[1..];
      var rest := FirstSuccess(ss[1..]).value;
      if rest.Some? {
        var i :| 0 <= i < |ss[1..]| && Green(ss[1..][i]) && ss[1..][i].created == rest;
        assert ss[i + 1].created == rest;
      }
      forall i | 0 <= i < |ss| && Green(ss[i])
        ensures ss[i].created.Some? && FirstSuccess(ss).value.Some?
          && FirstSuccess(ss).value.value <= ss[i].created.value
      {
        if i > 0 { assert ss[1..][i - 1] == ss[i]; }
      }
    }
  }

  /** sorted(failures, key=created_at): stable insertion. */
  function ByTime(fs: seq<QueueFailure>): seq<QueueFailure> {
    if fs == [] then [] else Put(ByTime(fs[..|fs| - 1]), fs[|fs| - 1])
  }

  function Put(fs: seq<QueueFailure>, f: QueueFailure): seq<QueueFailure> {
    if fs == [] || fs[|fs| - 1].created <= f.created then fs + [f]
    else Put(fs[..|fs| - 1], f) + [fs[|fs| - 1]]
  }

  ghost predicate TimeSorted(fs: seq<QueueFailure>) {
    forall i, j :: 0 <= i < j < |fs| ==> fs[i].created <= fs[j].created
  }

  lemma AppendSorts(fs: seq<QueueFailure>, z: QueueFailure)
    requires TimeSorted(fs) && forall f :: f in fs ==> f.created <= z.created
    ensures TimeSorted(fs + [z])
  {
  }

  lemma {:induction false} PutSorts(fs: seq<QueueFailure>, f: QueueFailure)
    requires TimeSorted(fs)
    ensures TimeSorted(Put(fs, f)) && multiset(Put(fs, f)) == multiset(fs) + multiset{f}
  {
    if fs == [] || fs[|fs| - 1].created <= f.created {
      forall x | x in fs ensures x.created <= f.created {}
      AppendSorts(fs, f);
    } else {
      var init, z := fs[..|fs| - 1], fs[|fs| - 1];
      assert fs == init + [z];
      PutSorts(init, f);
      hide TimeSorted;
      forall x | x in Put(init, f) ensures x.created <= z.created {
        assert x in multiset(Put(init, f));
        Earliest(fs, x, f);
      }
      AppendSorts(Put(init, f), z);
    }
  }

  lemma Earliest(fs: seq<QueueFailure>, x: QueueFailure, f: QueueFailure)
    requires TimeSorted(fs) && fs != [] && f.created < fs[|fs| - 1].created
    requires x in multiset(fs[..|fs| - 1]) + multiset{f}
    ensures x.created <= fs[|fs| - 1].created
  {
    if x != f { assert x in fs[..|fs| - 1]; }
  }

  lemma NothingSorted()
    ensures TimeSorted([])
  {
  }

  lemma {:induction false} ByTimeSorts(fs: seq<QueueFailure>)
    ensures TimeSorted(ByTime(fs)) && multiset(ByTime(fs)) == multiset(fs)
  {
    hide Put, TimeSorted;
    NothingSorted();
    if fs != [] {
      ByTimeSorts(fs[..|fs| - 1]);
      PutSorts(ByTime(fs[..|fs| - 1]), fs[|fs| - 1]);
      assert fs == fs[..|fs| - 1] + [fs[|fs| - 1]];
    }
  }

  /** queue_failure_for_head: the earliest own-tree failure at or after the head's first success. */
  method QueueFailureForHead(number: nat, statuses: seq<Status>, failures: map<nat, seq<QueueFailure>>)
    returns (r: Result<Option<QueueFailure>>)
    ensures r == Hold(statuses, Lookup(failures, number))
  {
    var bound := FirstSuccess(statuses);
    if bound.Err? { return Err; }
    if bound.value.None? { return Ok(None); }
    var sorted := ByTime(Lookup(failures, number));
    for k := 0 to |sorted|
      invariant FirstFrom(sorted, bound.value.value) == FirstFrom(sorted[k..], bound.value.value)
    {
      assert sorted[k..][1..] == sorted[k + 1..];
      if sorted[k].created >= bound.value.value { return Ok(Some(sorted[k])); }
    }
    r := Ok(None);
  }

  function FirstFrom(fs: seq<QueueFailure>, bound: int): Option<QueueFailure> {
    if fs == [] then None else if fs[0].created >= bound then Some(fs[0]) else FirstFrom(fs[1..], bound)
  }

  function Hold(statuses: seq<Status>, fs: seq<QueueFailure>): Result<Option<QueueFailure>> {
    match FirstSuccess(statuses)
    case Err => Err
    case Ok(None) => Ok(None)
    case Ok(Some(bound)) => Ok(FirstFrom(ByTime(fs), bound))
  }

  lemma {:induction false} FirstFromMeans(fs: seq<QueueFailure>, bound: int)
    ensures FirstFrom(fs, bound).None? <==> forall f :: f in fs ==> f.created < bound
    ensures FirstFrom(fs, bound).Some? ==>
      FirstFrom(fs, bound).value in fs && FirstFrom(fs, bound).value.created >= bound
    ensures TimeSorted(fs) && FirstFrom(fs, bound).Some? ==>
      forall f :: f in fs && f.created >= bound ==> FirstFrom(fs, bound).value.created <= f.created
  {
    if fs != [] {
      FirstFromMeans(fs[1..], bound);
      assert fs == [fs[0]] + fs[1..];
    }
  }

  /** A head is held exactly when some own-tree failure is not older than its first success; then by the earliest
      such. */
  lemma HoldExactly(statuses: seq<Status>, fs: seq<QueueFailure>)
    requires FirstSuccess(statuses).Ok?
    ensures Hold(statuses, fs).Ok?
    ensures Hold(statuses, fs).value.Some? <==>
      (FirstSuccess(statuses).value.Some? && exists f :: f in fs && f.created >= FirstSuccess(statuses).value.value)
    ensures Hold(statuses, fs).value.Some? ==>
      var h := Hold(statuses, fs).value.value;
      h in fs && forall f :: f in fs && f.created >= FirstSuccess(statuses).value.value ==> h.created <= f.created
  {
    if FirstSuccess(statuses).value.Some? {
      ByTimeSorts(fs);
      FirstFromMeans(ByTime(fs), FirstSuccess(statuses).value.value);
      forall f ensures f in ByTime(fs) <==> f in fs {
        assert f in ByTime(fs) <==> f in multiset(ByTime(fs));
        assert f in fs <==> f in multiset(fs);
      }
    }
  }

  /** latest_status_state: the state of the first status with the greatest timestamp. */
  function Latest(statuses: seq<Status>, context: string): Option<Status> {
    if statuses == [] then None
    else
      var rest, s := Latest(statuses[1..], context), statuses[0];
      if s.context != context then rest
      else if rest.None? || !Newer(rest.value, s) then Some(s) else rest
  }

  /** Missing timestamps compare as the empty string, below every other. */
  predicate Newer(a: Status, b: Status) {
    a.created.Some? && (b.created.None? || a.created.value > b.created.value)
  }

  /** Status k is the first listed of those with the latest time in the context; no time is earlier than any. */
  ghost predicate LatestAt(ss: seq<Status>, context: string, k: nat) {
    && k < |ss| && ss[k].context == context
    && (forall i :: 0 <= i < k && ss[i].context == context ==>
      ss[k].created.Some? && (ss[i].created.Some? ==> ss[i].created.value < ss[k].created.value))
    && forall i :: k < i < |ss| && ss[i].context == context && ss[i].created.Some? ==>
      ss[k].created.Some? && ss[i].created.value <= ss[k].created.value
  }

  lemma {:induction false} LatestMeans(ss: seq<Status>, context: string)
    ensures Latest(ss, context).None? <==> forall s :: s in ss ==> s.context != context
    ensures Latest(ss, context).Some? ==>
      exists k: nat :: LatestAt(ss, context, k) && k < |ss| && ss[k] == Latest(ss, context).value
  {
    hide LatestAt;
    if ss != [] {
      var tail := ss[1..];
      LatestMeans(tail, context);
      assert ss == [ss[0]] + tail;
      if Latest(tail, context).None? {
        LatestAlone(ss, context);
      } else {
        var k: nat :| LatestAt(tail, context, k) && k < |tail| && tail[k] == Latest(tail, context).value;
        LatestStep(ss, context, k);
      }
    }
  }

  lemma LatestAlone(ss: seq<Status>, context: string)
    requires ss != [] && forall s :: s in ss[1..] ==> s.context != context
    ensures ss[0].context == context ==> LatestAt(ss, context, 0)
  {
    forall i | 0 < i < |ss| ensures ss[i].context != context { assert ss[i] == ss[1..][i - 1]; }
  }

  lemma LatestStep(ss: seq<Status>, context: string, k: nat)
    requires ss != [] && LatestAt(ss[1..], context, k)
    ensures k + 1 < |ss| && ss[k + 1] == ss[1..][k]
    ensures if ss[0].context == context && !Newer(ss[1..][k], ss[0]) then LatestAt(ss, context, 0)
      else LatestAt(ss, context, k + 1)
  {
    var tail := ss[1..];
    assert forall i :: 1 <= i < |ss| ==> ss[i] == tail[i - 1];
    assert forall i :: 0 <= i < |tail| ==> tail[i] == ss[i + 1];
  }

  predicate GatesGreen(statuses: seq<Status>) {
    var l := Latest(statuses, GATES_CONTEXT);
    l.Some? && l.value.state == "success"
  }

  /** The gate is green exactly when the latest status of its context, the first listed of several, is a success. */
  lemma GreenExactly(ss: seq<Status>)
    ensures GatesGreen(ss) <==> exists k: nat :: LatestAt(ss, "gates-ran", k) && k < |ss| && ss[k].state == "success"
  {
    hide LatestAt, Latest;
    LatestMeans(ss, GATES_CONTEXT);
    if GatesGreen(ss) {
      var l: nat :| LatestAt(ss, GATES_CONTEXT, l) && l < |ss| && ss[l] == Latest(ss, GATES_CONTEXT).value;
      assert LatestAt(ss, "gates-ran", l) && ss[l].state == "success";
    }
    if k: nat :| LatestAt(ss, "gates-ran", k) && k < |ss| && ss[k].state == "success" {
      LatestIsOne(ss, GATES_CONTEXT, k, k);
      assert ss[k] in ss;
      var l: nat :| LatestAt(ss, GATES_CONTEXT, l) && l < |ss| && ss[l] == Latest(ss, GATES_CONTEXT).value;
      LatestIsOne(ss, GATES_CONTEXT, k, l);
    }
  }

  lemma LatestIsOne(ss: seq<Status>, context: string, k: nat, l: nat)
    requires LatestAt(ss, context, k) && LatestAt(ss, context, l)
    ensures k == l < |ss| && ss[k].context == context
  {
  }
}
