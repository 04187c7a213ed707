/** AC-state notes: the fold that bounds a branch, and the pruning that must not loosen it. */
module Notes {
  import opened Wrappers

  const RATCHETED: set<string> := {
    "completion_claims_contradicted", "completion_claims_unverifiable", "specs_awaiting_retrofit",
    "markers_without_criterion", "criteria_claimed_but_unproven", "scenarios_without_ac_tag", "gherkin_parse_errors",
    "specs_implementing_nothing", "adrs_without_implementing_spec", "specs_declaring_no_criteria"}
  const FLOORED: set<string> := {"design_coverage"}

  predicate Floored(c: string) { c in FLOORED }

  predicate Known(c: string) { c in FLOORED || c in RATCHETED }

  /** One branch's measured counters, keys listing them in the order they are iterated; pruning tells notes apart by
      identity. */
  class Note {
    const name: string
    const keys: seq<string>
    const counters: map<string, real>

    constructor (name: string, keys: seq<string>, counters: map<string, real>)
      requires forall c :: c in keys <==> c in counters
      ensures this.name == name && this.keys == keys && this.counters == counters
    {
      this.name, this.keys, this.counters := name, keys, counters;
    }
  }

  ghost predicate Keyed(n: Note) { forall c :: c in n.keys <==> c in n.counters }

  /** What Note.parse admits: some counters, all of them known. */
  ghost predicate Parsed(n: Note) {
    (exists c :: c in n.counters) && forall c :: c in n.counters ==> Known(c)
  }

  /** x bounds the counter more strictly than y. */
  predicate Tighter(c: string, x: real, y: real) { if Floored(c) then x > y else x < y }

  // ---- The fold -----------------------------------------------------------------------------------------

  ghost predicate Held(notes: seq<Note>, c: string, x: real) {
    exists n :: n in notes && c in n.counters && n.counters[c] == x
  }

  ghost predicate Recorded(notes: seq<Note>, c: string) {
    exists n :: n in notes && c in n.counters
  }

  /** The tightest value of a counter: held by some note and beaten by none. */
  ghost predicate Bound(notes: seq<Note>, c: string, x: real) {
    Held(notes, c, x) && forall n :: n in notes && c in n.counters ==> !Tighter(c, n.counters[c], x)
  }

  /** b bounds exactly the recorded counters, each by its tightest value. */
  ghost predicate IsFold(notes: seq<Note>, b: map<string, real>) {
    forall c :: (c in b <==> Recorded(notes, c)) && (c in b ==> Bound(notes, c, b[c]))
  }

  ghost predicate ClashAt(notes: seq<Note>, c: string, i: nat, j: nat) {
    i < j < |notes| && c in notes[i].counters && c in notes[j].counters && !Known(c)
  }

  /** Two notes record a counter whose direction nobody knows. */
  ghost predicate Clash(notes: seq<Note>) {
    exists c, i: nat, j: nat :: ClashAt(notes, c, i, j)
  }

  /** fold: fails exactly when a bound would need an unknown direction. */
  method Fold(notes: seq<Note>) returns (r: Option<map<string, real>>)
    ensures r.None? <==> Clash(notes)
    ensures r.Some? ==> IsFold(notes, r.value)
  {
    hide IsFold, Clash;
    var bounds: map<string, real> := map[];
    NothingFolds();
    for k := 0 to |notes|
      invariant IsFold(notes[..k], bounds) && !Clash(notes[..k])
    {
      var ok, next := FoldOne(notes[..k], bounds, notes[k]);
      assert notes[..k] + [notes[k]] == notes[..k + 1];
      if !ok {
        ClashSpreads(notes, k + 1);
        return None;
      }
      bounds := next;
    }
    assert notes[..|notes|] == notes;
    r := Some(bounds);
  }

  /** What the bounds are: every recorded counter and no other, design coverage by the greatest recorded value, any
      other by the least. */
  lemma FoldMeans(notes: seq<Note>, b: map<string, real>)
    ensures IsFold(notes, b) <==> forall c ::
      && (c in b <==> exists n :: n in notes && c in n.counters)
      && (c in b ==> exists n :: n in notes && c in n.counters && n.counters[c] == b[c])
      && (c in b ==> forall n :: n in notes && c in n.counters ==>
        if c == "design_coverage" then n.counters[c] <= b[c] else b[c] <= n.counters[c])
  {
  }

  /** Two notes clash over exactly the counters outside these eleven. */
  lemma ClashMeans(notes: seq<Note>, c: string, i: nat, j: nat)
    ensures ClashAt(notes, c, i, j) <==>
      && i < j < |notes| && c in notes[i].counters && c in notes[j].counters
      && c !in {
        "design_coverage", "completion_claims_contradicted", "completion_claims_unverifiable",
        "specs_awaiting_retrofit", "markers_without_criterion", "criteria_claimed_but_unproven",
        "scenarios_without_ac_tag", "gherkin_parse_errors", "specs_implementing_nothing",
        "adrs_without_implementing_spec", "specs_declaring_no_criteria"}
  {
  }

  lemma NothingFolds()
    ensures IsFold([], map[]) && !Clash([])
  {
  }

  lemma ClashSpreads(notes: seq<Note>, k: nat)
    requires k <= |notes| && Clash(notes[..k])
    ensures Clash(notes)
  {
    hide Known;
    var c, i: nat, j: nat :| ClashAt(notes[..k], c, i, j);
    assert ClashAt(notes, c, i, j);
  }

  function Tightest(c: string, x: real, y: real): real { if Tighter(c, y, x) then y else x }

  /** The value of a counter once a note has been folded in. */
  function Merged(c: string, bounds: map<string, real>, counters: map<string, real>): real
    requires c in bounds || c in counters
  {
    if c !in counters then bounds[c] else if c !in bounds then counters[c] else Tightest(c, bounds[c], counters[c])
  }

  /** One note folded in, its counters in any order. */
  method FoldOne(before: seq<Note>, bounds: map<string, real>, note: Note) returns (ok: bool, next: map<string, real>)
    requires IsFold(before, bounds) && !Clash(before)
    ensures ok <==> !Clash(before + [note])
    ensures ok ==> IsFold(before + [note], next)
  {
    hide IsFold, Clash, Known, Floored;
    next := bounds;
    var todo := note.counters.Keys;
    while todo != {}
      invariant todo <= note.counters.Keys
      invariant forall c :: c in next <==> c in bounds || (c in note.counters && c !in todo)
      invariant forall c :: c in next ==> next[c] == if c in todo then bounds[c] else Merged(c, bounds, note.counters)
      invariant forall c :: c in note.counters && c !in todo && c in bounds ==> Known(c)
      decreases todo
    {
      var c :| c in todo;
      var value := note.counters[c];
      if c !in next {
        next := next[c := value];
      } else if !Known(c) {
        RepeatClashes(before, bounds, note, c);
        return false, next;
      } else {
        next := next[c := if Floored(c) then (if value > next[c] then value else next[c])
          else (if value < next[c] then value else next[c])];
      }
      todo := todo - {c};
    }
    Folded(before, bounds, note, next);
    ok := true;
  }

  lemma RepeatClashes(before: seq<Note>, bounds: map<string, real>, note: Note, c: string)
    requires IsFold(before, bounds) && c in bounds && c in note.counters && !Known(c)
    ensures Clash(before + [note])
  {
    hide Known, Bound;
    var n :| n in before && c in n.counters;
    var i :| 0 <= i < |before| && before[i] == n;
    assert ClashAt(before + [note], c, i, |before|);
  }

  lemma Folded(before: seq<Note>, bounds: map<string, real>, note: Note, next: map<string, real>)
    requires IsFold(before, bounds) && !Clash(before)
    requires forall c :: c in next <==> c in bounds || c in note.counters
    requires forall c :: c in next ==> next[c] == Merged(c, bounds, note.counters)
    requires forall c :: c in note.counters && c in bounds ==> Known(c)
    ensures IsFold(before + [note], next) && !Clash(before + [note])
  {
    hide Known, Bound, Recorded, Merged, ClashAt;
    assert forall c, i: nat, j: nat :: !ClashAt(before, c, i, j);
    forall c
      ensures (c in next <==> Recorded(before + [note], c)) && (c in next ==> Bound(before + [note], c, next[c]))
    {
      RecordedGrows(before, note, c);
      if c in next { MergedBounds(before, bounds, note, c); }
    }
    forall c, i: nat, j: nat ensures !ClashAt(before + [note], c, i, j) {
      NoNewClash(before, note, c, i, j);
    }
  }

  lemma RecordedGrows(before: seq<Note>, note: Note, c: string)
    ensures Recorded(before + [note], c) <==> Recorded(before, c) || c in note.counters
  {
    var all := before + [note];
    if c in note.counters { assert note in all; }
    if Recorded(before, c) {
      var n :| n in before && c in n.counters;
      assert n in all;
    }
  }

  lemma MergedBounds(before: seq<Note>, bounds: map<string, real>, note: Note, c: string)
    requires c in bounds || c in note.counters
    requires (c in bounds <==> Recorded(before, c)) && (c in bounds ==> Bound(before, c, bounds[c]))
    ensures Bound(before + [note], c, Merged(c, bounds, note.counters))
  {
    hide Floored;
    var all, x := before + [note], Merged(c, bounds, note.counters);
    if c in bounds && x == bounds[c] {
      var n :| n in before && c in n.counters && n.counters[c] == x;
      assert n in all;
    } else {
      assert note in all;
    }
    assert Held(all, c, x);
  }

  lemma NoNewClash(before: seq<Note>, note: Note, c: string, i: nat, j: nat)
    ensures ClashAt(before + [note], c, i, j) ==>
      ClashAt(before, c, i, j) || (Recorded(before, c) && c in note.counters && !Known(c))
  {
    hide Known;
    if ClashAt(before + [note], c, i, j) { assert i < |before| && before[i] in before; }
  }

  /** The bound depends on which notes there are, not on their order or repetition. */
  lemma FoldDetermined(a: seq<Note>, b: seq<Note>, x: map<string, real>, y: map<string, real>)
    requires IsFold(a, x) && IsFold(b, y) && forall n :: n in a <==> n in b
    ensures x == y
  {
    hide Bound, Recorded;
    forall c ensures (c in x <==> c in y) && (c in x ==> x[c] == y[c]) {
      RecordedByMore(a, b, c);
      RecordedByMore(b, a, c);
      if c in x {
        MoreBoundsTighter(a, b, c, x[c], y[c]);
        MoreBoundsTighter(b, a, c, y[c], x[c]);
      }
    }
  }

  lemma RecordedByMore(fewer: seq<Note>, more: seq<Note>, c: string)
    requires forall n :: n in fewer ==> n in more
    ensures Recorded(fewer, c) ==> Recorded(more, c)
  {
  }

  lemma MoreBoundsTighter(fewer: seq<Note>, more: seq<Note>, c: string, x: real, y: real)
    requires (forall n :: n in fewer ==> n in more) && Bound(fewer, c, x) && Bound(more, c, y)
    ensures !Tighter(c, x, y)
  {
    hide Floored;
    var n :| n in fewer && c in n.counters && n.counters[c] == x;
    assert n in more;
  }

  /** More notes only tighten: no bound is lost and none is loosened. */
  lemma MoreNotesTighten(notes: seq<Note>, more: seq<Note>, x: map<string, real>, y: map<string, real>)
    requires (forall n :: n in notes ==> n in more) && IsFold(notes, x) && IsFold(more, y)
    ensures forall c :: c in x ==> c in y && !Tighter(c, x[c], y[c])
  {
    hide Bound, Recorded, Tighter;
    forall c | c in x ensures c in y && !Tighter(c, x[c], y[c]) {
      RecordedByMore(notes, more, c);
      MoreBoundsTighter(notes, more, c, x[c], y[c]);
    }
  }

  /** Whether the fold fails does not depend on the order of the notes either. */
  lemma ClashIgnoresOrder(a: seq<Note>, b: seq<Note>)
    requires multiset(a) == multiset(b)
    ensures Clash(a) <==> Clash(b)
  {
    if Clash(a) { ClashMoves(a, b); }
    if Clash(b) { ClashMoves(b, a); }
  }

  lemma ClashMoves(a: seq<Note>, b: seq<Note>)
    requires multiset(a) == multiset(b) && Clash(a)
    ensures Clash(b)
  {
    hide Known;
    var c, i: nat, j: nat :| ClashAt(a, c, i, j);
    var k, l := TwoPlaces(a, b, i, j);
    assert ClashAt(b, c, k, l);
  }

  /** Two places of a list have two places in any reordering of it. */
  lemma TwoPlaces<T>(a: seq<T>, b: seq<T>, i: nat, j: nat) returns (k: nat, l: nat)
    requires multiset(a) == multiset(b) && i < j < |a|
    ensures k < l < |b| && ((b[k] == a[i] && b[l] == a[j]) || (b[k] == a[j] && b[l] == a[i]))
  {
    l := PlaceOf(b, a[j]);
    OtherRemains(a, i, j);
    RemoveOne(b, l);
    k := PlaceOf(b[..l] + b[l + 1..], a[i]);
    if k >= l {
      k, l := l, k + 1;
    }
  }

  lemma PlaceOf<T>(s: seq<T>, x: T) returns (k: nat)
    requires x in multiset(s)
    ensures k < |s| && s[k] == x
  {
    k :| k < |s| && s[k] == x;
  }

  lemma OtherRemains<T>(s: seq<T>, i: nat, j: nat)
    requires i < j < |s|
    ensures s[i] in multiset(s) - multiset{s[j]}
  {
    RemoveOne(s, j);
    assert (s[..j] + s[j + 1..])[i] == s[i];
  }

  lemma RemoveOne<T>(s: seq<T>, j: nat)
    requires j < |s|
    ensures multiset(s[..j] + s[j + 1..]) == multiset(s) - multiset{s[j]}
  {
    assert s == s[..j] + ([s[j]] + s[j + 1..]);
  }

  /** Parsed notes always fold. */
  lemma ParsedNeverClash(notes: seq<Note>)
    requires forall n :: n in notes ==> Parsed(n)
    ensures !Clash(notes)
  {
    hide Known;
    forall c, i: nat, j: nat ensures !ClashAt(notes, c, i, j) {
      if i < |notes| { assert notes[i] in notes; }
    }
  }

  // ---- Pruning -----------------------------------------------------------------------------------------------

  function Others(notes: seq<Note>, note: Note): (r: seq<Note>)
    ensures forall n :: n in notes && n != note ==> n in r
    ensures forall n :: n in r ==> n in notes && n != note
  {
    if notes == [] then []
    else
      var z, rest := notes[|notes| - 1], Others(notes[..|notes| - 1], note);
      assert notes == notes[..|notes| - 1] + [z];
      if z == note then rest else rest + [z]
  }

  ghost predicate Matched(c: string, x: real, others: seq<Note>) {
    exists n :: n in others && c in n.counters && !Tighter(c, x, n.counters[c])
  }

  /** Everything the note says, some other note says at least as strictly. */
  ghost predicate Dominated(note: Note, others: seq<Note>) {
    forall c :: c in note.counters ==> Matched(c, note.counters[c], others)
  }

  lemma MatchedByBound(c: string, x: real, others: seq<Note>, y: real)
    requires Bound(others, c, y)
    ensures Matched(c, x, others) <==> !Tighter(c, x, y)
  {
    hide Floored;
  }

  lemma MatchedByFold(c: string, x: real, others: seq<Note>, without: map<string, real>)
    requires IsFold(others, without)
    ensures Matched(c, x, others) <==> c in without && !Tighter(c, x, without[c])
  {
    hide Floored, Bound, Tighter;
    if c in without { MatchedByBound(c, x, others, without[c]); }
  }

  lemma DominatedByMore(note: Note, fewer: seq<Note>, more: seq<Note>)
    requires forall n :: n in fewer ==> n in more
    ensures Dominated(note, fewer) ==> Dominated(note, more)
  {
    if Dominated(note, fewer) {
      hide Tighter;
      forall c | c in note.counters ensures Matched(c, note.counters[c], more) {
        assert Matched(c, note.counters[c], fewer);
      }
    }
  }

  /** Dropping a dominated note leaves every dominated note dominated. */
  lemma DropKeepsDominated(n: Note, survivors: seq<Note>, note: Note)
    requires Dominated(note, Others(survivors, note)) && Dominated(n, survivors)
    ensures Dominated(n, Others(survivors, note))
  {
    hide Floored, Others;
    var others := Others(survivors, note);
    forall c | c in n.counters ensures Matched(c, n.counters[c], others) {
      assert Matched(c, n.counters[c], survivors);
      var w :| w in survivors && c in w.counters && !Tighter(c, n.counters[c], w.counters[c]);
      if w == note {
        assert Matched(c, note.counters[c], others);
        var v :| v in others && c in v.counters && !Tighter(c, note.counters[c], v.counters[c]);
      } else {
        assert w in others;
      }
    }
  }

  /** Every note is kept or dominated by what is kept. */
  ghost predicate Covered(notes: seq<Note>, kept: seq<Note>) {
    && (forall n :: n in kept ==> n in notes)
    && forall n :: n in notes ==> n in kept || Dominated(n, kept)
  }

  /** Then both support exactly the same bounds. */
  lemma CoveredFoldsAlike(notes: seq<Note>, kept: seq<Note>, b: map<string, real>)
    requires Covered(notes, kept)
    ensures IsFold(notes, b) <==> IsFold(kept, b)
  {
    hide Bound, Recorded, Covered;
    forall c ensures Recorded(notes, c) <==> Recorded(kept, c) { CoveredRecords(notes, kept, c); }
    forall c | c in b ensures Bound(notes, c, b[c]) <==> Bound(kept, c, b[c]) { CoveredBounds(notes, kept, c, b[c]); }
  }

  lemma CoveredRecords(notes: seq<Note>, kept: seq<Note>, c: string)
    requires Covered(notes, kept)
    ensures Recorded(notes, c) <==> Recorded(kept, c)
  {
    hide Tighter;
    if Recorded(notes, c) {
      var n :| n in notes && c in n.counters;
      if n !in kept { assert Matched(c, n.counters[c], kept); }
    }
  }

  lemma CoveredMatches(notes: seq<Note>, kept: seq<Note>, n: Note, c: string)
    requires Covered(notes, kept) && n in notes && c in n.counters
    ensures Matched(c, n.counters[c], kept)
  {
    hide Floored;
  }

  lemma CoveredBounds(notes: seq<Note>, kept: seq<Note>, c: string, x: real)
    requires Covered(notes, kept)
    ensures Bound(notes, c, x) <==> Bound(kept, c, x)
  {
    if Bound(notes, c, x) { KeptBound(notes, kept, c, x); }
    if Bound(kept, c, x) { BoundOfKept(notes, kept, c, x); }
  }

  lemma KeptBound(notes: seq<Note>, kept: seq<Note>, c: string, x: real)
    requires Covered(notes, kept) && Bound(notes, c, x)
    ensures Bound(kept, c, x)
  {
    hide Floored, Dominated;
    var n :| n in notes && c in n.counters && n.counters[c] == x;
    CoveredMatches(notes, kept, n, c);
    var w :| w in kept && c in w.counters && !Tighter(c, x, w.counters[c]);
    assert w in notes && w.counters[c] == x;
    assert Held(kept, c, x);
  }

  lemma BoundOfKept(notes: seq<Note>, kept: seq<Note>, c: string, x: real)
    requires Covered(notes, kept) && Bound(kept, c, x)
    ensures Bound(notes, c, x)
  {
    hide Tighter, Dominated, Matched;
    forall n | n in notes && c in n.counters ensures !Tighter(c, n.counters[c], x) {
      CoveredMatches(notes, kept, n, c);
      MatchedByBound(c, n.counters[c], kept, x);
    }
  }

  /** No note can be spared; a sole note is never spared. */
  ghost predicate Irredundant(kept: seq<Note>) {
    forall n :: n in kept ==> Others(kept, n) == [] || !Dominated(n, Others(kept, n))
  }

  /** Sparing one all the same loses a counter or loosens a bound. */
  lemma SparingLoosens(kept: seq<Note>, n: Note, b: map<string, real>, w: map<string, real>)
    requires Irredundant(kept) && n in kept && IsFold(kept, b) && IsFold(Others(kept, n), w)
    requires Others(kept, n) != [] || exists c :: c in n.counters
    ensures exists c :: c in b && (c in w ==> Tighter(c, b[c], w[c]))
  {
    hide Floored;
    if Others(kept, n) == [] { SaysSomething(n); }
    var c :| c in n.counters && !Matched(c, n.counters[c], Others(kept, n));
    MatchedByFold(c, n.counters[c], Others(kept, n), w);
    assert Recorded(kept, c);
    assert Bound(kept, c, b[c]);
  }

  lemma SaysSomething(n: Note)
    ensures (exists c :: c in n.counters) ==> !Dominated(n, [])
  {
    if c :| c in n.counters { assert !Matched(c, n.counters[c], []); }
  }

  /** The counter is known and some other note says as much. */
  ghost predicate Passes(note: Note, others: seq<Note>, c: string) {
    c in note.counters && Known(c) && Matched(c, note.counters[c], others)
  }

  /** The comparison comes to a counter of unknown direction that others record, before one that settles it. */
  ghost predicate StuckAt(note: Note, others: seq<Note>, i: nat) {
    && i < |note.keys| && !Known(note.keys[i]) && Recorded(others, note.keys[i])
    && forall j :: 0 <= j < i ==> Passes(note, others, note.keys[j])
  }

  ghost predicate Stuck(note: Note, others: seq<Note>) { exists i: nat :: StuckAt(note, others, i) }

  /** Whether the note still says something the others do not, or None when a direction is asked for that nobody
      knows. */
  method Needed(note: Note, others: seq<Note>) returns (needed: Option<bool>)
    requires Keyed(note)
    ensures needed.None? <==> Clash(others) || Stuck(note, others)
    ensures needed.Some? ==> (needed.value <==> !Dominated(note, others))
  {
    hide IsFold, Matched, Floored, Recorded, Clash, Known;
    var without := Fold(others);
    if without.None? { return None; }
    for k := 0 to |note.keys|
      invariant forall j :: 0 <= j < k ==> Passes(note, others, note.keys[j])
    {
      var c := note.keys[k];
      var value := note.counters[c];
      MatchedByFold(c, value, others, without.value);
      RecordedByFold(others, without.value, c);
      if c !in without.value {
        return Some(true);
      }
      if !Known(c) {
        assert StuckAt(note, others, k);
        return None;
      }
      if (Floored(c) && value > without.value[c]) || (!Floored(c) && value < without.value[c]) {
        return Some(true);
      }
    }
    needed := Some(false);
  }

  lemma RecordedByFold(others: seq<Note>, without: map<string, real>, c: string)
    requires IsFold(others, without)
    ensures c in without <==> Recorded(others, c)
  {
  }

  /** What is left after the first k notes were considered in turn. */
  ghost function Left(notes: seq<Note>, k: nat): seq<Note>
    requires k <= |notes|
  {
    if k == 0 then notes
    else
      var left, note := Left(notes, k - 1), notes[k - 1];
      if Others(left, note) != [] && Dominated(note, Others(left, note)) then Others(left, note) else left
  }

  /** The notes found dominated at their turn, in order. */
  ghost function Spare(notes: seq<Note>, k: nat): seq<Note>
    requires k <= |notes|
  {
    if k == 0 then []
    else
      var left, note := Left(notes, k - 1), notes[k - 1];
      Spare(notes, k - 1) + if Others(left, note) != [] && Dominated(note, Others(left, note)) then [note] else []
  }

  /** Considering note k asks for a direction nobody knows. */
  ghost predicate Raises(notes: seq<Note>, k: nat)
    requires k < |notes|
  {
    var others := Others(Left(notes, k), notes[k]);
    others != [] && (Clash(others) || Stuck(notes[k], others))
  }

  ghost predicate NeededSoFar(notes: seq<Note>, survivors: seq<Note>, k: nat)
    requires k <= |notes|
  {
    forall n :: n in notes[..k] && n in survivors ==> Others(survivors, n) == [] || !Dominated(n, Others(survivors, n))
  }

  lemma DropOne(notes: seq<Note>, survivors: seq<Note>, k: nat)
    requires k < |notes| && Covered(notes, survivors) && NeededSoFar(notes, survivors, k)
    requires Dominated(notes[k], Others(survivors, notes[k]))
    ensures Covered(notes, Others(survivors, notes[k])) && NeededSoFar(notes, Others(survivors, notes[k]), k + 1)
  {
    hide Dominated, Others;
    var note := notes[k];
    var others := Others(survivors, note);
    forall n | n in notes ensures n in others || Dominated(n, others) {
      if n != note && n !in survivors { DropKeepsDominated(n, survivors, note); }
    }
    assert notes[..k + 1] == notes[..k] + [note];
    forall n | n in notes[..k + 1] && n in others ensures Others(others, n) == [] || !Dominated(n, Others(others, n)) {
      DominatedByMore(n, Others(others, n), Others(survivors, n));
      SomeMember(Others(others, n));
    }
  }

  lemma SomeMember(xs: seq<Note>)
    ensures xs != [] ==> exists x :: x in xs
  {
    if xs != [] { assert xs[0] in xs; }
  }

  lemma KeepOne(notes: seq<Note>, survivors: seq<Note>, k: nat)
    requires k < |notes| && NeededSoFar(notes, survivors, k)
    requires Others(survivors, notes[k]) == [] || !Dominated(notes[k], Others(survivors, notes[k]))
    ensures NeededSoFar(notes, survivors, k + 1)
  {
    assert notes[..k + 1] == notes[..k] + [notes[k]];
  }

  /** stale, with what it leaves: the bound is unchanged and no survivor can be spared. */
  method Stale(notes: seq<Note>) returns (ok: bool, dropped: seq<Note>, survivors: seq<Note>)
    requires forall n :: n in notes ==> Keyed(n)
    ensures ok <==> forall k :: 0 <= k < |notes| ==> !Raises(notes, k)
    ensures ok ==> survivors == Left(notes, |notes|) && dropped == Spare(notes, |notes|)
    ensures ok ==> forall n :: n in notes ==> (n in survivors <==> n !in dropped)
    ensures ok ==> forall n :: n in dropped || n in survivors ==> n in notes
    ensures ok ==> forall b :: IsFold(survivors, b) <==> IsFold(notes, b)
    ensures ok ==> Irredundant(survivors)
  {
    hide Keyed, Covered, Dominated, Others, IsFold, NeededSoFar, Clash, Stuck, Irredundant;
    survivors, dropped := notes, [];
    StartStale(notes);
    for k := 0 to |notes|
      invariant forall n :: n in notes ==> (n in survivors <==> n !in dropped)
      invariant forall n :: n in dropped || n in survivors ==> n in notes
      invariant Covered(notes, survivors) && NeededSoFar(notes, survivors, k)
      invariant survivors == Left(notes, k) && dropped == Spare(notes, k)
      invariant forall i :: 0 <= i < k ==> !Raises(notes, i)
    {
      var note := notes[k];
      var others := Others(survivors, note);
      if others == [] {
        KeepOne(notes, survivors, k);
        continue;
      }
      var needed := Needed(note, others);
      if needed.None? {
        assert Raises(notes, k);
        return false, dropped, survivors;
      }
      if needed.value {
        KeepOne(notes, survivors, k);
        continue;
      }
      DropOne(notes, survivors, k);
      dropped, survivors := dropped + [note], others;
    }
    EndStale(notes, survivors);
    ok := true;
  }

  /** On parsed notes pruning never fails. */
  lemma ParsedNeverRaise(notes: seq<Note>, k: nat)
    requires k < |notes| && forall n :: n in notes ==> Parsed(n) && Keyed(n)
    ensures !Raises(notes, k)
  {
    hide Known, Dominated;
    LeftWithin(notes, k);
    ParsedNeverClash(Others(Left(notes, k), notes[k]));
    assert notes[k] in notes;
    forall i: nat ensures !StuckAt(notes[k], Others(Left(notes, k), notes[k]), i) {
      if i < |notes[k].keys| { assert notes[k].keys[i] in notes[k].keys; }
    }
  }

  lemma {:induction false} LeftWithin(notes: seq<Note>, k: nat)
    requires k <= |notes|
    ensures forall n :: n in Left(notes, k) ==> n in notes
  {
    hide Dominated;
    if k > 0 { LeftWithin(notes, k - 1); }
  }

  lemma StartStale(notes: seq<Note>)
    ensures Covered(notes, notes) && NeededSoFar(notes, notes, 0)
  {
  }

  lemma EndStale(notes: seq<Note>, survivors: seq<Note>)
    requires Covered(notes, survivors) && NeededSoFar(notes, survivors, |notes|)
    ensures Irredundant(survivors) && forall b :: IsFold(survivors, b) <==> IsFold(notes, b)
  {
    hide Dominated, IsFold;
    assert notes[..|notes|] == notes;
    forall b ensures IsFold(survivors, b) <==> IsFold(notes, b) { CoveredFoldsAlike(notes, survivors, b); }
  }
}
