/** The canonical chain builder and the motif adapter that meets the stated spec or refuses. */
module Chain {
  import opened Order
  import opened Graph
  import opened Kinds
  import opened Wrappers

  datatype Spec = Spec(family: string, required: set<string>, orderings: seq<Edge>)
  datatype Structure = Structure(kinds: set<string>, edges: seq<Edge>)

  // ---- The chain ----------------------------------------------------------------------------------

  /** The endpoints of the ordering pairs, in the order they are stated. */
  function Endpoints(orderings: seq<Edge>): (f: seq<string>)
    ensures |f| == 2 * |orderings|
  {
    if orderings == [] then []
    else Endpoints(orderings[..|orderings| - 1]) + [orderings[|orderings| - 1].0, orderings[|orderings| - 1].1]
  }

  /** First pass: each given kind at its first mention. */
  function Placed(mentions: seq<string>, kinds: set<string>): (p: seq<string>)
    ensures Distinct(p) && forall x :: x in p <==> x in mentions && x in kinds
  {
    if mentions == [] then []
    else
      var p, x := Placed(mentions[..|mentions| - 1], kinds), mentions[|mentions| - 1];
      assert mentions == mentions[..|mentions| - 1] + [x];
      if x in kinds && x !in p then p + [x] else p
  }

  function PlaceAt(q: seq<string>, kind: string): (i: nat)
    ensures i <= |q|
  {
    if kind != REVIEWER && REVIEWER in q then First(q, REVIEWER) else |q|
  }

  function Place(q: seq<string>, kind: string): seq<string> {
    q[..PlaceAt(q, kind)] + [kind] + q[PlaceAt(q, kind)..]
  }

  /** Second pass: the remaining kinds, before REVIEWER if it is already there. */
  function PlaceAll(q: seq<string>, rest: seq<string>): seq<string> {
    if rest == [] then q else Place(PlaceAll(q, rest[..|rest| - 1]), rest[|rest| - 1])
  }

  ghost function ChainSequence(kinds: set<string>, orderings: seq<Edge>): seq<string> {
    var p := Placed(Endpoints(orderings), kinds);
    PlaceAll(p, SortedKinds(kinds - Elements(p)))
  }

  function ChainEdges(q: seq<string>): (es: seq<Edge>) {
    seq(if |q| == 0 then 0 else |q| - 1, i requires 0 <= i < |q| - 1 => (q[i], q[i + 1]))
  }

  ghost function ChainOf(kinds: set<string>, orderings: seq<Edge>): Structure {
    var q := ChainSequence(kinds, orderings);
    Structure(Elements(q), ChainEdges(q))
  }

  /** The edges join each element of q to the next, in order. */
  ghost predicate IsChainOf(edges: seq<Edge>, q: seq<string>) {
    |edges| == (if q == [] then 0 else |q| - 1) && forall i :: 0 <= i < |edges| ==> edges[i] == (q[i], q[i + 1])
  }

  method ChainStructure(kinds: set<string>, spec: Spec) returns (s: Structure)
    ensures s == ChainOf(kinds, spec.orderings) && s.kinds == kinds
    ensures exists q :: LaidOut(kinds, spec.orderings, q) && IsChainOf(s.edges, q)
  {
    hide Distinct, Sorted, LaidOut, IsChainOf;
    ChainMeans(kinds, spec.orderings);
    if kinds == {} {
      EmptyChain(spec.orderings);
      return Structure({}, []);
    }
    var sequence: seq<string> := [];
    var os := spec.orderings;
    for k := 0 to |os|
      invariant sequence == Placed(Endpoints(os[..k]), kinds)
    {
      var (src, dst) := os[k];
      EndpointsStep(os, k);
      ghost var before := Endpoints(os[..k]);
      MentionStep(before, src, kinds);
      MentionStep(before + [src], dst, kinds);
      if src in kinds && src !in sequence { sequence := sequence + [src]; }
      if dst in kinds && dst !in sequence { sequence := sequence + [dst]; }
    }
    assert os[..|os|] == os;
    ghost var placed := sequence;
    var rest := SortKinds(kinds - Elements(sequence));
    for k := 0 to |rest|
      invariant sequence == PlaceAll(placed, rest[..k])
    {
      assert rest[..k + 1][..k] == rest[..k];
      var insertAt := if rest[k] != REVIEWER && REVIEWER in sequence then First(sequence, REVIEWER) else |sequence|;
      sequence := sequence[..insertAt] + [rest[k]] + sequence[insertAt..];
    }
    assert rest[..|rest|] == rest;
    s := Structure(Elements(sequence), ChainEdges(sequence));
  }

  lemma ChainMeans(kinds: set<string>, orderings: seq<Edge>)
    ensures ChainOf(kinds, orderings).kinds == kinds
    ensures exists q :: LaidOut(kinds, orderings, q) && IsChainOf(ChainOf(kinds, orderings).edges, q)
  {
    hide LaidOut, Distinct, ChainSequence;
    var q := ChainSequence(kinds, orderings);
    ChainIsLaidOut(kinds, orderings);
    ChainShape(kinds, orderings);
    assert IsChainOf(ChainEdges(q), q);
  }

  lemma EmptyChain(orderings: seq<Edge>)
    ensures ChainOf({}, orderings) == Structure({}, [])
  {
    var p := Placed(Endpoints(orderings), {});
    assert Elements(p) == {};
    NoElements(p);
    NoElements(SortedKinds({} - Elements(p)));
  }

  lemma EndpointsStep(os: seq<Edge>, k: nat)
    requires k < |os|
    ensures Endpoints(os[..k + 1]) == (Endpoints(os[..k]) + [os[k].0]) + [os[k].1]
  {
    assert os[..k + 1][..k] == os[..k];
  }

  lemma MentionStep(mentions: seq<string>, x: string, kinds: set<string>)
    ensures var p := Placed(mentions, kinds);
      Placed(mentions + [x], kinds) == if x in kinds && x !in p then p + [x] else p
  {
    assert (mentions + [x])[..|mentions|] == mentions;
  }

  // ---- Each kind exactly once ----------------------------------------------------------------------

  lemma PlaceDistinct(q: seq<string>, kind: string)
    requires Distinct(q) && kind !in q
    ensures Distinct(Place(q, kind)) && (forall x :: x in Place(q, kind) <==> x in q || x == kind)
    ensures |Place(q, kind)| == |q| + 1
    ensures forall k :: 0 <= k < |q| ==> q[k] == Place(q, kind)[if k < PlaceAt(q, kind) then k else k + 1]
  {
    hide PlaceAt;
    var i, r := PlaceAt(q, kind), Place(q, kind);
    forall k | 0 <= k < |q| ensures q[k] == r[if k < i then k else k + 1] {}
    assert r[i] == kind;
    hide Place;
    forall x ensures x in r <==> x in q || x == kind { InsertedMembers(q, kind, i, r, x); }
    InsertedDistinct(q, kind, i, r);
  }

  lemma InsertedMembers(q: seq<string>, kind: string, i: nat, r: seq<string>, x: string)
    requires i <= |q| && |r| == |q| + 1 && r[i] == kind
    requires forall k :: 0 <= k < |q| ==> q[k] == r[if k < i then k else k + 1]
    ensures x in r <==> x in q || x == kind
  {
    if k :| 0 <= k < |r| && r[k] == x && k != i { assert q[if k < i then k else k - 1] == x; }
    if k :| 0 <= k < |q| && q[k] == x { assert r[if k < i then k else k + 1] == x; }
  }

  lemma InsertedDistinct(q: seq<string>, kind: string, i: nat, r: seq<string>)
    requires Distinct(q) && kind !in q && i <= |q| && |r| == |q| + 1 && r[i] == kind
    requires forall k :: 0 <= k < |q| ==> q[k] == r[if k < i then k else k + 1]
    ensures Distinct(r)
  {
    forall a, b | 0 <= a < b < |r| ensures r[a] != r[b] {
      if a != i { assert q[if a < i then a else a - 1] == r[a]; }
      if b != i { assert q[if b < i then b else b - 1] == r[b]; }
    }
  }

  lemma PlaceIsDistinct(q: seq<string>, kind: string)
    requires Distinct(q) && kind !in q
    ensures Distinct(Place(q, kind))
  {
    PlaceDistinct(q, kind);
  }

  lemma PlaceMoves(q: seq<string>, kind: string, k: nat)
    requires k < |q|
    ensures |Place(q, kind)| == |q| + 1
    ensures Place(q, kind)[if k < PlaceAt(q, kind) then k else k + 1] == q[k]
  {
  }

  lemma PlaceFirst(q: seq<string>, kind: string, a: string)
    requires Distinct(q) && kind !in q && a in q
    ensures var i, k := PlaceAt(q, kind), First(q, a);
      First(Place(q, kind), a) == if k < i then k else k + 1
  {
    hide Place, PlaceAt, Distinct;
    var i, k := PlaceAt(q, kind), First(q, a);
    PlaceIsDistinct(q, kind);
    PlaceMoves(q, kind, k);
    FirstInDistinct(Place(q, kind), if k < i then k else k + 1);
  }

  lemma PlaceKeeps(q: seq<string>, kind: string)
    requires Distinct(q) && kind !in q
    ensures Distinct(Place(q, kind)) && (forall x :: x in Place(q, kind) <==> x in q || x == kind)
    ensures forall a, b :: a in q && b in q ==>
      (First(Place(q, kind), a) < First(Place(q, kind), b) <==> First(q, a) < First(q, b))
  {
    hide Place, PlaceAt, Distinct, First;
    PlaceDistinct(q, kind);
    forall a | a in q
      ensures First(Place(q, kind), a) == if First(q, a) < PlaceAt(q, kind) then First(q, a) else First(q, a) + 1
    {
      PlaceFirst(q, kind, a);
    }
  }

  lemma {:induction false} PlaceAllKeeps(q: seq<string>, rest: seq<string>)
    requires Distinct(q) && Distinct(rest) && forall x :: x in rest ==> x !in q
    ensures var r := PlaceAll(q, rest);
      && Distinct(r) && (forall x :: x in r <==> x in q || x in rest)
      && (forall a, b :: a in q && b in q ==> (First(r, a) < First(r, b) <==> First(q, a) < First(q, b)))
  {
    if rest != [] {
      var init, x := rest[..|rest| - 1], rest[|rest| - 1];
      assert rest == init + [x];
      PlaceAllKeeps(q, init);
      hide First, Place;
      PlaceKeeps(PlaceAll(q, init), x);
    }
  }

  /** The chain holds exactly the given kinds, each once, and orders the mentioned ones by first mention. */
  lemma ChainShape(kinds: set<string>, orderings: seq<Edge>)
    ensures var q := ChainSequence(kinds, orderings);
      && Distinct(q) && Elements(q) == kinds
      && forall a, b :: a in kinds && b in kinds && a in Endpoints(orderings) && b in Endpoints(orderings) ==>
        (First(q, a) < First(q, b) <==> First(Endpoints(orderings), a) < First(Endpoints(orderings), b))
  {
    var mentions := Endpoints(orderings);
    var p := Placed(mentions, kinds);
    var rest := SortedKinds(kinds - Elements(p));
    forall x | x in rest ensures x !in p { assert x in Elements(rest); }
    PlaceAllKeeps(p, rest);
    forall x ensures x in ChainSequence(kinds, orderings) <==> x in kinds {
      assert x in rest <==> x in Elements(rest);
      assert x in p <==> x in Elements(p);
    }
    forall a, b | a in kinds && b in kinds && a in mentions && b in mentions
      ensures First(p, a) < First(p, b) <==> First(mentions, a) < First(mentions, b)
    {
      PlacedOrder(mentions, kinds, a, b);
    }
  }

  lemma {:induction false} PlacedOrder(mentions: seq<string>, kinds: set<string>, a: string, b: string)
    requires a in kinds && b in kinds && a in mentions && b in mentions
    ensures First(Placed(mentions, kinds), a) < First(Placed(mentions, kinds), b)
      <==> First(mentions, a) < First(mentions, b)
  {
    var n := |mentions| - 1;
    var init, x := mentions[..n], mentions[n];
    var p := Placed(init, kinds);
    assert mentions == init + [x];
    FirstPrefix(init, x, a);
    FirstPrefix(init, x, b);
    FirstPrefix(p, x, a);
    FirstPrefix(p, x, b);
    if a in init && b in init { PlacedOrder(init, kinds, a, b); }
  }

  lemma {:induction false} FirstPrefix(q: seq<string>, x: string, a: string)
    ensures First(q + [x], a) == if a in q then First(q, a) else if a == x then |q| else |q| + 1
  {
    if q != [] {
      FirstPrefix(q[1..], x, a);
      assert (q + [x])[1..] == q[1..] + [x];
    }
  }

  // ---- The layout of a chain -------------------------------------------------------------------------

  ghost predicate MentionedAt(os: seq<Edge>, k: string, i: int) {
    0 <= i < |os| && (os[i].0 == k || os[i].1 == k)
  }

  ghost predicate IsMentioned(os: seq<Edge>, k: string) { exists i :: MentionedAt(os, k, i) }

  /** Some pair mentions a, as its source if it mentions b too, and no earlier pair mentions b. */
  ghost predicate MentionedBefore(os: seq<Edge>, a: string, b: string) {
    exists i :: MentionedAt(os, a, i) && os[i].0 != b && (os[i].1 == b ==> os[i].0 == a)
      && forall j :: 0 <= j < i ==> !MentionedAt(os, b, j)
  }

  /** m lists the given kinds the pairs mention, each once, in the order of their first mention. */
  ghost predicate InMentionOrder(kinds: set<string>, os: seq<Edge>, m: seq<string>) {
    && (forall k :: k in m <==> k in kinds && IsMentioned(os, k))
    && forall i, j :: 0 <= i < j < |m| ==> m[i] != m[j] && MentionedBefore(os, m[i], m[j])
  }

  /** b lists the other given kinds except the reviewer, in canonical order. */
  ghost predicate InCanonicalOrder(kinds: set<string>, os: seq<Edge>, b: seq<string>) {
    && (forall k :: k in b <==> k in kinds && !IsMentioned(os, k) && k != "reviewer")
    && forall i, j :: 0 <= i < j < |b| ==> StandsBefore(b[i], b[j])
  }

  /** The block b goes right before the reviewer m mentions, and otherwise to the end, before the reviewer if given. */
  ghost predicate BlockInserted(kinds: set<string>, m: seq<string>, b: seq<string>, q: seq<string>) {
    if "reviewer" in m then exists p :: 0 <= p < |m| && m[p] == "reviewer" && q == m[..p] + b + m[p..]
    else q == m + b + if "reviewer" in kinds then ["reviewer"] else []
  }

  ghost predicate LaidOut(kinds: set<string>, os: seq<Edge>, q: seq<string>) {
    exists m, b :: InMentionOrder(kinds, os, m) && InCanonicalOrder(kinds, os, b) && BlockInserted(kinds, m, b, q)
  }

  /** Where the chain puts every kind. */
  lemma ChainIsLaidOut(kinds: set<string>, os: seq<Edge>)
    ensures LaidOut(kinds, os, ChainSequence(kinds, os))
  {
    hide Place, PlaceAll, IsMentioned, Endpoints, Placed, SortedKinds, KindBefore, StandsBefore, MentionedBefore;
    var m := Placed(Endpoints(os), kinds);
    var rest := SortedKinds(kinds - Elements(m));
    var q := ChainSequence(kinds, os);
    assert q == PlaceAll(m, rest);
    forall k ensures k in Endpoints(os) <==> IsMentioned(os, k) { EndpointsAre(os, k); }
    forall k ensures k in rest <==> k in kinds && !IsMentioned(os, k) { assert k in rest <==> k in Elements(rest); }
    PlacedInOrder(kinds, os);
    PlaceAllShape(m, rest);
    var b := WithoutReviewer(rest);
    RestInOrder(rest);
    hide Sorted, WithoutReviewer;
    assert InCanonicalOrder(kinds, os, b);
    assert BlockInserted(kinds, m, b, q) by { InsertsBlock(kinds, m, b, rest); }
  }

  lemma InsertsBlock(kinds: set<string>, m: seq<string>, b: seq<string>, rest: seq<string>)
    requires rest == b + if REVIEWER in rest then [REVIEWER] else []
    requires REVIEWER in rest <==> REVIEWER in kinds && REVIEWER !in m
    ensures BlockInserted(kinds, m, b,
      if REVIEWER in m then m[..First(m, REVIEWER)] + rest + m[First(m, REVIEWER)..] else m + rest)
  {
    if REVIEWER in m {
      assert rest == b && m[First(m, REVIEWER)] == REVIEWER;
    } else if REVIEWER in kinds {
      assert m + (b + [REVIEWER]) == m + b + [REVIEWER];
    }
  }

  ghost function WithoutReviewer(rest: seq<string>): seq<string> {
    if rest != [] && rest[|rest| - 1] == REVIEWER then rest[..|rest| - 1] else rest
  }

  /** The sorted rest is its non-reviewer kinds in canonical order, then the reviewer. */
  lemma RestInOrder(rest: seq<string>)
    requires Sorted(KindBefore, rest)
    ensures var b := WithoutReviewer(rest);
      && (forall k :: k in b <==> k in rest && k != REVIEWER)
      && (forall i, j :: 0 <= i < j < |b| ==> StandsBefore(b[i], b[j]))
      && rest == b + if REVIEWER in rest then [REVIEWER] else []
  {
    hide KindBefore, StandsBefore;
    var b := WithoutReviewer(rest);
    if rest != [] {
      ReviewerSortsLast(rest);
      assert rest == rest[..|rest| - 1] + [rest[|rest| - 1]];
    }
    forall i, j | 0 <= i < j < |b| ensures StandsBefore(b[i], b[j]) { KindOrderMeans(rest[i], rest[j]); }
  }

  /** Placing kind after kind comes to inserting them as one block. */
  lemma PlaceAllShape(q: seq<string>, rest: seq<string>)
    requires Sorted(KindBefore, rest) && (REVIEWER in q ==> REVIEWER !in rest)
    ensures PlaceAll(q, rest) ==
      if REVIEWER in q then q[..First(q, REVIEWER)] + rest + q[First(q, REVIEWER)..] else q + rest
  {
    hide PlaceAll;
    if REVIEWER in q {
      var i := First(q, REVIEWER);
      assert q == q[..i] + q[i..];
      PlaceAllInto(q[..i], q[i..], rest);
    } else {
      if rest != [] { ReviewerSortsLast(rest); }
      PlaceAllAtEnd(q, rest);
    }
  }

  lemma {:induction false} PlaceAllInto(head: seq<string>, tail: seq<string>, rest: seq<string>)
    requires REVIEWER !in head && tail != [] && tail[0] == REVIEWER && REVIEWER !in rest
    ensures PlaceAll(head + tail, rest) == head + rest + tail
  {
    if rest == [] {
      assert head + rest == head;
    } else {
      hide Place;
      var init, x := rest[..|rest| - 1], rest[|rest| - 1];
      PlaceAllInto(head, tail, init);
      PlaceInto(head + init, tail, x);
      assert head + init + [x] == head + rest;
    }
  }

  lemma {:induction false} PlaceAllAtEnd(q: seq<string>, rest: seq<string>)
    requires REVIEWER !in q && (rest != [] ==> REVIEWER !in rest[..|rest| - 1])
    ensures PlaceAll(q, rest) == q + rest
  {
    if rest == [] {
      assert q + rest == q;
    } else {
      hide Place;
      var init, x := rest[..|rest| - 1], rest[|rest| - 1];
      PlaceAllAtEnd(q, init);
      PlaceAtEnd(q + init, x);
      assert q + init + [x] == q + rest;
    }
  }

  lemma PlaceInto(before: seq<string>, after: seq<string>, x: string)
    requires REVIEWER !in before && after != [] && after[0] == REVIEWER && x != REVIEWER
    ensures Place(before + after, x) == before + [x] + after
  {
    FirstAfter(before, after);
    assert (before + after)[..|before|] == before && (before + after)[|before|..] == after;
    assert REVIEWER in before + after;
  }

  lemma PlaceAtEnd(q: seq<string>, x: string)
    requires REVIEWER !in q
    ensures Place(q, x) == q + [x]
  {
    assert q[..|q|] == q && q[|q|..] == [];
  }

  lemma FirstAfter(before: seq<string>, after: seq<string>)
    requires REVIEWER !in before && after != [] && after[0] == REVIEWER
    ensures First(before + after, REVIEWER) == |before|
  {
    assert (before + after)[|before|] == REVIEWER;
    forall k | 0 <= k < |before| ensures (before + after)[k] != REVIEWER { assert before[k] in before; }
  }

  lemma {:induction false} EndpointsAre(os: seq<Edge>, k: string)
    ensures k in Endpoints(os) <==> IsMentioned(os, k)
  {
    if os != [] {
      var n := |os| - 1;
      EndpointsAre(os[..n], k);
      if i :| MentionedAt(os, k, i) && i < n { assert MentionedAt(os[..n], k, i); }
      if i :| MentionedAt(os[..n], k, i) { assert MentionedAt(os, k, i); }
      assert MentionedAt(os, k, n) <==> os[n].0 == k || os[n].1 == k;
    }
  }

  lemma PlacedInOrder(kinds: set<string>, os: seq<Edge>)
    ensures InMentionOrder(kinds, os, Placed(Endpoints(os), kinds))
  {
    hide IsMentioned, MentionedBefore;
    var f, m := Endpoints(os), Placed(Endpoints(os), kinds);
    forall k ensures k in f <==> IsMentioned(os, k) { EndpointsAre(os, k); }
    forall i, j | 0 <= i < j < |m| ensures MentionedBefore(os, m[i], m[j]) {
      PlacedOrder(f, kinds, m[i], m[j]);
      FirstInDistinct(m, i);
      FirstInDistinct(m, j);
      FirstMention(os, m[i], m[j]);
    }
  }

  /** An earlier first mention, read off the pairs. */
  lemma FirstMention(os: seq<Edge>, a: string, b: string)
    requires First(Endpoints(os), a) < First(Endpoints(os), b)
    ensures MentionedBefore(os, a, b)
  {
    var f, p := Endpoints(os), First(Endpoints(os), a);
    var i := p / 2;
    EndpointAt(os, i);
    forall j | 0 <= j < i ensures !MentionedAt(os, b, j) { EndpointAt(os, j); }
    assert f[2 * i] != b;
    assert MentionedAt(os, a, i);
  }

  lemma {:induction false} EndpointAt(os: seq<Edge>, i: nat)
    requires i < |os|
    ensures Endpoints(os)[2 * i] == os[i].0 && Endpoints(os)[2 * i + 1] == os[i].1
  {
    if i < |os| - 1 { EndpointAt(os[..|os| - 1], i); }
  }

  // ---- Edges of the chain ----------------------------------------------------------------------------

  lemma ChainEdge(q: seq<string>, x: Edge)
    ensures x in EdgeSet(ChainEdges(q)) <==> exists i :: 0 <= i < |q| - 1 && x.0 == q[i] && x.1 == q[i + 1]
  {
    var es := ChainEdges(q);
    if i :| 0 <= i < |q| - 1 && x.0 == q[i] && x.1 == q[i + 1] {
      assert es[i] == (q[i], q[i + 1]) == x;
    }
  }

  ghost function Positions(q: seq<string>): map<string, int> { map x | x in q :: First(q, x) }

  lemma ChainRanked(q: seq<string>, o: set<Edge>)
    requires Distinct(q) && forall x :: x in o ==> x.0 in q && x.1 in q && First(q, x.0) < First(q, x.1)
    ensures Ranked(EdgeSet(ChainEdges(q)) + o, Positions(q))
  {
    var e, rank := EdgeSet(ChainEdges(q)), Positions(q);
    forall x | x in e ensures x.0 in rank && x.1 in rank && rank[x.0] < rank[x.1] {
      ChainEdge(q, x);
      var i :| 0 <= i < |q| - 1 && x.0 == q[i] && x.1 == q[i + 1];
      FirstInDistinct(q, i);
      FirstInDistinct(q, i + 1);
    }
  }

  lemma ChainPath(q: seq<string>, i: nat, j: nat)
    requires i <= j < |q|
    ensures IsPath(EdgeSet(ChainEdges(q)), q[i..j + 1])
  {
    var p := q[i..j + 1];
    forall k | 0 <= k < |p| - 1 ensures (p[k], p[k + 1]) in EdgeSet(ChainEdges(q)) {
      assert p[k] == q[i + k] && p[k + 1] == q[i + k + 1];
      ChainEdge(q, (p[k], p[k + 1]));
    }
  }

  /** Along the chain a kind reaches exactly itself and what stands after it. */
  lemma ChainReaches(q: seq<string>, a: string, b: string)
    requires Distinct(q) && a in q && b in q
    ensures Reachable(EdgeSet(ChainEdges(q)), a, b) <==> First(q, a) <= First(q, b)
  {
    var e, i, j := EdgeSet(ChainEdges(q)), First(q, a), First(q, b);
    if i <= j {
      ChainPath(q, i, j);
      assert PathFrom(e, q[i..j + 1], a, b);
    }
    if p :| PathFrom(e, p, a, b) {
      if |p| > 1 {
        ChainRanked(q, {});
        assert e + {} == e;
        PathsGoUp(e, Positions(q), p, |p| - 1);
      }
    }
  }

  /** Against the chain the stated pairs are acyclic exactly when each runs forward along it. */
  lemma ChainHonours(q: seq<string>, o: set<Edge>)
    requires Distinct(q) && forall x :: x in o ==> x.0 in q && x.1 in q
    ensures !Cyclic(EdgeSet(ChainEdges(q)) + o) <==> forall x :: x in o ==> First(q, x.0) < First(q, x.1)
  {
    var e := EdgeSet(ChainEdges(q));
    if forall x :: x in o ==> First(q, x.0) < First(q, x.1) {
      ChainRanked(q, o);
      RankedIsAcyclic(e + o, Positions(q));
    } else {
      var x :| x in o && First(q, x.0) >= First(q, x.1);
      var i, j := First(q, x.1), First(q, x.0);
      ChainPath(q, i, j);
      var p := q[i..j + 1];
      BackEdgeCycle(e, o, x, p);
    }
  }

  lemma BackEdgeCycle(e: set<Edge>, o: set<Edge>, x: Edge, p: seq<string>)
    requires IsPath(e, p) && x in o && p[0] == x.1 && p[|p| - 1] == x.0
    ensures Cyclic(e + o)
  {
    var c := p + [x.1];
    forall k | 0 <= k < |c| - 1 ensures (c[k], c[k + 1]) in e + o {
      if k < |p| - 1 { assert (p[k], p[k + 1]) in e; } else { assert (c[k], c[k + 1]) == x; }
    }
    assert IsCycle(e + o, c);
  }

  // ---- Meeting the stated spec -------------------------------------------------------------------------

  ghost predicate Satisfies(s: Structure, spec: Spec) {
    spec.required <= s.kinds && !Cyclic(EdgeSet(s.edges) + EdgeSet(spec.orderings))
  }

  /** Every ordering endpoint is a required kind, as _spec guarantees. */
  ghost predicate WellFormed(spec: Spec) {
    forall o :: o in spec.orderings ==> o.0 in spec.required && o.1 in spec.required
  }

  /** Each pair's source is mentioned before its target anywhere in the list of pairs. */
  ghost predicate StatedInOrder(orderings: seq<Edge>) {
    var f := Endpoints(orderings);
    forall o :: o in orderings ==> First(f, o.0) < First(f, o.1)
  }

  lemma {:induction false} EndpointsMention(orderings: seq<Edge>, o: Edge)
    requires o in orderings
    ensures o.0 in Endpoints(orderings) && o.1 in Endpoints(orderings)
  {
    var n := |orderings| - 1;
    assert orderings == orderings[..n] + [orderings[n]];
    if o in orderings[..n] { EndpointsMention(orderings[..n], o); } else { assert o == orderings[n]; }
    var f := Endpoints(orderings);
    assert f == Endpoints(orderings[..n]) + [orderings[n].0, orderings[n].1];
    assert f[|f| - 2] == orderings[n].0 && f[|f| - 1] == orderings[n].1;
  }

  /** Over any superset of the required kinds the chain meets the spec exactly when the pairs are stated in order. */
  lemma ChainSatisfiesExactly(kinds: set<string>, spec: Spec)
    requires WellFormed(spec) && spec.required <= kinds
    ensures Satisfies(ChainOf(kinds, spec.orderings), spec) <==> StatedInOrder(spec.orderings)
  {
    hide First, Cyclic, ChainEdges, ChainSequence;
    var q, os := ChainSequence(kinds, spec.orderings), spec.orderings;
    ChainShape(kinds, os);
    forall o | o in os
      ensures o.0 in q && o.1 in q
        && (First(q, o.0) < First(q, o.1) <==> First(Endpoints(os), o.0) < First(Endpoints(os), o.1))
    {
      EndpointsMention(os, o);
      assert o.0 in Elements(q) && o.1 in Elements(q);
    }
    ChainHonours(q, EdgeSet(os));
    assert forall o :: o in os <==> o in EdgeSet(os);
  }

  /** Pairs stated in order can always be satisfied together. */
  lemma StatedInOrderIsAcyclic(orderings: seq<Edge>)
    requires StatedInOrder(orderings)
    ensures !Cyclic(EdgeSet(orderings))
  {
    var f := Endpoints(orderings);
    var rank := Positions(f);
    forall o | o in EdgeSet(orderings) ensures o.0 in rank && o.1 in rank && rank[o.0] < rank[o.1] {
      EndpointsMention(orderings, o);
    }
    RankedIsAcyclic(EdgeSet(orderings), rank);
  }

  /** The converse fails: these two pairs are acyclic, yet the chain breaks one of them. */
  lemma ChainRefusesSatisfiable()
    ensures var os := [(CODER, REVIEWER), (SCOUT, CODER)];
      !Cyclic(EdgeSet(os)) && !StatedInOrder(os)
  {
    var os: seq<Edge> := [(CODER, REVIEWER), (SCOUT, CODER)];
    RankedIsAcyclic(EdgeSet(os), map[SCOUT := 0, CODER := 1, REVIEWER := 2]);
    var f := [CODER, REVIEWER, SCOUT, CODER];
    TwoPairs(os[0], os[1]);
    assert First(f, CODER) == 0 && (SCOUT, CODER) in os;
  }

  // ---- Validation ------------------------------------------------------------------------------------------

  ghost predicate Validated(s: Structure) {
    REVIEWER in s.kinds && forall k :: k in s.kinds && k != REVIEWER ==> Reachable(EdgeSet(s.edges), k, REVIEWER)
  }

  ghost predicate EndsWith(q: seq<string>, x: string) { q != [] && q[|q| - 1] == x }

  lemma ValidatedExactly(kinds: set<string>, orderings: seq<Edge>)
    ensures Validated(ChainOf(kinds, orderings)) <==> EndsWith(ChainSequence(kinds, orderings), REVIEWER)
  {
    hide ChainSequence, ChainEdges, Reachable;
    var q := ChainSequence(kinds, orderings);
    ChainShape(kinds, orderings);
    var e := EdgeSet(ChainEdges(q));
    forall k | k in q && REVIEWER in q ensures Reachable(e, k, REVIEWER) <==> First(q, k) <= First(q, REVIEWER) {
      ChainReaches(q, k, REVIEWER);
    }
    if q != [] {
      var z := q[|q| - 1];
      FirstInDistinct(q, |q| - 1);
      assert z in Elements(q);
      assert REVIEWER in q <==> REVIEWER in Elements(q);
    }
  }

  /** REVIEWER is mentioned after every other given kind that is mentioned, or not at all. */
  ghost predicate ReviewerMentionedLast(kinds: set<string>, orderings: seq<Edge>) {
    var f := Endpoints(orderings);
    REVIEWER in f ==> forall k :: k in kinds && k in f && k != REVIEWER ==> First(f, k) < First(f, REVIEWER)
  }

  lemma {:induction false} PlaceAllLast(q: seq<string>, rest: seq<string>)
    requires Distinct(q) && Distinct(rest) && (forall x :: x in rest ==> x !in q) && Sorted(KindBefore, rest)
    ensures EndsWith(PlaceAll(q, rest), REVIEWER) <==> if REVIEWER in q then EndsWith(q, REVIEWER) else REVIEWER in rest
  {
    if rest != [] {
      var init, x := rest[..|rest| - 1], rest[|rest| - 1];
      assert rest == init + [x];
      PlaceAllLast(q, init);
      PlaceAllKeeps(q, init);
      ReviewerSortsLast(rest);
      hide Place, EndsWith, Distinct, First;
      PlaceLast(PlaceAll(q, init), x);
    }
  }

  lemma PlaceLast(q: seq<string>, kind: string)
    requires kind !in q
    ensures EndsWith(Place(q, kind), REVIEWER) <==> if REVIEWER in q then EndsWith(q, REVIEWER) else kind == REVIEWER
  {
    var i := PlaceAt(q, kind);
    assert Place(q, kind)[|q|] == if i == |q| then kind else q[|q| - 1];
  }

  lemma ReviewerSortsLast(rest: seq<string>)
    requires Sorted(KindBefore, rest) && rest != []
    ensures REVIEWER !in rest[..|rest| - 1]
  {
    KindTotal();
    forall i | 0 <= i < |rest| - 1 ensures rest[i] != REVIEWER {
      assert KindBefore(rest[i], rest[|rest| - 1]);
    }
  }

  /** A chain is validated exactly when it has REVIEWER and its pairs mention it last. */
  lemma ReviewerLastExactly(kinds: set<string>, orderings: seq<Edge>)
    ensures Validated(ChainOf(kinds, orderings)) <==> REVIEWER in kinds && ReviewerMentionedLast(kinds, orderings)
  {
    hide Reachable, PlaceAll, ChainEdges;
    var mentions := Endpoints(orderings);
    var p := Placed(mentions, kinds);
    var rest := SortedKinds(kinds - Elements(p));
    forall x ensures (x in rest <==> x in kinds && x !in p) { assert x in rest <==> x in Elements(rest); }
    PlaceAllLast(p, rest);
    ValidatedExactly(kinds, orderings);
    if REVIEWER in p {
      forall k | k in p ensures First(p, k) < First(p, REVIEWER) <==> First(mentions, k) < First(mentions, REVIEWER) {
        PlacedOrder(mentions, kinds, k, REVIEWER);
      }
      FirstInDistinct(p, |p| - 1);
    }
  }

  /** Not placing any kind after REVIEWER is not enough: the coder lands behind it, unvalidated. */
  lemma ReviewerCanLandMidChain()
    ensures var os := [(SCOUT, REVIEWER), (SCOUT, CODER)];
      (forall o :: o in os ==> o.0 != REVIEWER) && StatedInOrder(os)
      && !Validated(ChainOf({SCOUT, CODER, REVIEWER}, os))
  {
    hide Reachable, Validated, ChainOf, Endpoints;
    var os: seq<Edge> := [(SCOUT, REVIEWER), (SCOUT, CODER)];
    ReviewerLastExactly({SCOUT, CODER, REVIEWER}, os);
    var f := [SCOUT, REVIEWER, SCOUT, CODER];
    TwoPairs((SCOUT, REVIEWER), (SCOUT, CODER));
    assert First(f, SCOUT) == 0 && First(f, REVIEWER) == 1 && First(f, CODER) == 3;
    assert CODER in f && REVIEWER in f;
  }

  lemma TwoPairs(x: Edge, y: Edge)
    ensures Endpoints([x, y]) == [x.0, x.1, y.0, y.1]
  {
    assert [x, y][..1] == [x] && [x][..0] == [];
    assert Endpoints([x]) == [x.0, x.1];
  }

  // ---- Adaptation ------------------------------------------------------------------------------------------

  /** _spec: drop a kind from the requirement, with the pairs that name it. */
  function Kept(orderings: seq<Edge>, kept: set<string>): (r: seq<Edge>)
    ensures forall o :: o in r <==> o in orderings && o.0 in kept && o.1 in kept
  {
    if orderings == [] then []
    else
      var rest, o := Kept(orderings[1..], kept), orderings[0];
      assert orderings == [o] + orderings[1..];
      if o.0 in kept && o.1 in kept then [o] + rest else rest
  }

  /** The kept pairs stay in their order, each as often as it was stated. */
  lemma {:induction false} KeptSplits(a: seq<Edge>, b: seq<Edge>, kept: set<string>)
    ensures Kept(a + b, kept) == Kept(a, kept) + Kept(b, kept)
  {
    hide Kept;
    if a == [] {
      KeptFew(kept);
      assert a + b == b;
    } else {
      assert (a + b)[1..] == a[1..] + b;
      KeptSplits(a[1..], b, kept);
      KeptHead(a + b, kept);
      KeptHead(a, kept);
    }
  }

  lemma KeptFew(kept: set<string>)
    ensures Kept([], kept) == []
    ensures forall o :: Kept([o], kept) == if o.0 in kept && o.1 in kept then [o] else []
  {
    forall o: Edge ensures Kept([o], kept) == if o.0 in kept && o.1 in kept then [o] else [] {
      assert [o][1..] == [];
    }
  }

  lemma KeptHead(a: seq<Edge>, kept: set<string>)
    requires a != []
    ensures Kept(a, kept) == (if a[0].0 in kept && a[0].1 in kept then [a[0]] else []) + Kept(a[1..], kept)
  {
  }

  function SpecOf(family: string, required: set<string>, orderings: seq<Edge>, drop: Option<string>): (s: Spec)
    ensures WellFormed(s) && s.family == family
    ensures forall k :: k in s.required <==> k in required && drop != Some(k)
    ensures forall o :: o in s.orderings <==> o in orderings && o.0 in s.required && o.1 in s.required
  {
    var kept := required - match drop case None => {} case Some(d) => {d};
    Spec(family, kept, Kept(orderings, kept))
  }

  /** Structure.satisfies. */
  method Meets(s: Structure, spec: Spec) returns (ok: bool)
    ensures ok <==> Satisfies(s, spec)
  {
    if !(spec.required <= s.kinds) { return false; }
    ok := OrderingsSatisfiable(s.kinds, s.edges, spec.orderings);
  }

  /** Add what is missing and re-chain; refuse when the chain breaks a stated pair. */
  method Adapt(structure: Structure, spec: Spec) returns (r: Option<Structure>, edits: nat)
    ensures r.Some? <==> Satisfies(ChainOf(structure.kinds + spec.required, spec.orderings), spec)
    ensures WellFormed(spec) ==> (r.Some? <==> StatedInOrder(spec.orderings))
    ensures r.Some? ==> Satisfies(r.value, spec) && r.value.kinds == structure.kinds + spec.required
    ensures r.Some? ==> r.value == ChainOf(r.value.kinds, spec.orderings)
    ensures edits == if r.Some? then |spec.required - structure.kinds| else 0
    ensures r.Some? ==> edits == |r.value.kinds - structure.kinds|
  {
    hide Cyclic, ChainSequence, ChainEdges, StatedInOrder;
    var missing := spec.required - structure.kinds;
    var kinds := structure.kinds + missing;
    assert kinds == structure.kinds + spec.required;
    var adapted := ChainStructure(kinds, spec);
    ChainShape(kinds, spec.orderings);
    if WellFormed(spec) { ChainSatisfiesExactly(kinds, spec); }
    var ok := Meets(adapted, spec);
    if !ok { return None, 0; }
    assert adapted.kinds - structure.kinds == missing;
    r, edits := Some(adapted), |missing|;
  }

  /** Adapting an adapted structure changes nothing and costs nothing. */
  lemma AdaptIsIdempotent(kinds: set<string>, spec: Spec)
    requires spec.required <= kinds
    ensures var s := ChainOf(kinds, spec.orderings);
      s.kinds == kinds && ChainOf(s.kinds + spec.required, spec.orderings) == s && spec.required - s.kinds == {}
  {
    ChainShape(kinds, spec.orderings);
    assert kinds + spec.required == kinds;
  }
}
