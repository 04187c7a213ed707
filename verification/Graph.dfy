/** Reachability and acyclicity of kind-level structures: the worklist and Kahn's algorithm. */
module Graph {
  type Edge = (string, string)

  function EdgeSet(es: seq<Edge>): set<Edge> { set e | e in es }

  ghost predicate IsPath(e: set<Edge>, p: seq<string>) {
    |p| > 0 && forall i :: 0 <= i < |p| - 1 ==> (p[i], p[i + 1]) in e
  }

  ghost predicate PathFrom(e: set<Edge>, p: seq<string>, a: string, b: string) {
    IsPath(e, p) && p[0] == a && p[|p| - 1] == b
  }

  /** The reflexive-transitive closure of the edges. */
  ghost predicate Reachable(e: set<Edge>, a: string, b: string) {
    exists p :: PathFrom(e, p, a, b)
  }

  ghost predicate IsCycle(e: set<Edge>, p: seq<string>) {
    |p| > 1 && IsPath(e, p) && p[0] == p[|p| - 1]
  }

  ghost predicate Cyclic(e: set<Edge>) { exists p :: IsCycle(e, p) }

  // ---- Ranks and walks ------------------------------------------------------------------------

  /** Every edge goes up. */
  ghost predicate Ranked(e: set<Edge>, rank: map<string, int>) {
    forall x :: x in e ==> x.0 in rank && x.1 in rank && rank[x.0] < rank[x.1]
  }

  lemma {:induction false} PathsGoUp(e: set<Edge>, rank: map<string, int>, p: seq<string>, i: nat)
    requires Ranked(e, rank) && IsPath(e, p) && 0 < i < |p|
    ensures p[0] in rank && p[i] in rank && rank[p[0]] < rank[p[i]]
  {
    assert (p[i - 1], p[i]) in e;
    if i > 1 { PathsGoUp(e, rank, p, i - 1); }
  }

  lemma RankedIsAcyclic(e: set<Edge>, rank: map<string, int>)
    requires Ranked(e, rank)
    ensures !Cyclic(e)
  {
    forall p ensures !IsCycle(e, p) {
      if IsCycle(e, p) { PathsGoUp(e, rank, p, |p| - 1); }
    }
  }

  ghost predicate Distinct<T>(p: seq<T>) { forall i, j :: 0 <= i < j < |p| ==> p[i] != p[j] }

  lemma {:induction false} DistinctFits<T>(p: seq<T>, u: set<T>)
    requires Distinct(p) && forall i :: 0 <= i < |p| ==> p[i] in u
    ensures |p| <= |u|
  {
    if p != [] { DistinctFits(p[1..], u - {p[0]}); }
  }

  lemma ClosesCycle(e: set<Edge>, p: seq<string>, w: string, i: nat)
    requires IsPath(e, p) && (w, p[0]) in e && i < |p| && p[i] == w
    ensures Cyclic(e)
  {
    var c := [w] + p[..i + 1];
    assert IsCycle(e, c);
  }

  /** Walking backwards inside a finite set that always offers a predecessor must come round. */
  lemma {:induction false} WalkBackComesRound(e: set<Edge>, u: set<string>, p: seq<string>)
    requires IsPath(e, p) && Distinct(p) && forall i :: 0 <= i < |p| ==> p[i] in u
    requires forall v :: v in u ==> exists w :: w in u && (w, v) in e
    ensures Cyclic(e)
    decreases |u| - |p|
  {
    DistinctFits(p, u);
    var w :| w in u && (w, p[0]) in e;
    if w in p {
      var i :| 0 <= i < |p| && p[i] == w;
      ClosesCycle(e, p, w, i);
    } else {
      var q := [w] + p;
      DistinctFits(q, u);
      assert IsPath(e, q);
      hide IsPath, Cyclic;
      WalkBackComesRound(e, u, q);
    }
  }

  lemma {:induction false} ClosedTraps(e: set<Edge>, s: set<string>, p: seq<string>, i: nat)
    requires IsPath(e, p) && p[0] in s && i < |p|
    requires forall x :: x in e && x.0 in s ==> x.1 in s
    ensures p[i] in s
  {
    if i > 0 {
      ClosedTraps(e, s, p, i - 1);
      assert (p[i - 1], p[i]) in e;
    }
  }

  lemma ClosedExcludes(e: set<Edge>, s: set<string>, src: string, dst: string)
    requires src in s && dst !in s && forall x :: x in e && x.0 in s ==> x.1 in s
    ensures !Reachable(e, src, dst)
  {
    forall p ensures !PathFrom(e, p, src, dst) {
      if PathFrom(e, p, src, dst) { ClosedTraps(e, s, p, |p| - 1); }
    }
  }

  lemma ReachesNext(e: set<Edge>, a: string, b: string, c: string)
    requires Reachable(e, a, b) && (b, c) in e
    ensures Reachable(e, a, c)
  {
    var p :| PathFrom(e, p, a, b);
    assert PathFrom(e, p + [c], a, c);
  }

  lemma ReachesSelf(e: set<Edge>, a: string)
    ensures Reachable(e, a, a)
  {
    assert PathFrom(e, [a], a, a);
  }

  // ---- Structure.reaches ------------------------------------------------------------------------

  /** adjacency.setdefault(a, []).append(b) over the edge list; absent keys have no successors. */
  method Adjacency(edges: seq<Edge>) returns (adj: map<string, seq<string>>)
    ensures forall a, b :: (a in adj && b in adj[a]) <==> (a, b) in EdgeSet(edges)
  {
    adj := map[];
    for k := 0 to |edges|
      invariant forall a, b :: (a in adj && b in adj[a]) <==> (a, b) in edges[..k]
    {
      var (a, b) := edges[k];
      assert edges[..k + 1] == edges[..k] + [edges[k]];
      adj := adj[a := (if a in adj then adj[a] else []) + [b]];
    }
    assert edges[..|edges|] == edges;
  }

  /** The inner loop of reaches: mark and queue the unseen successors, stopping at dst. */
  method Expand(next: seq<string>, dst: string, seen: set<string>, frontier: seq<string>)
    returns (found: bool, seen': set<string>, frontier': seq<string>)
    ensures found <==> dst in next
    ensures !found ==> seen' == seen + (set x | x in next)
    ensures !found ==> (forall x :: x in frontier' <==> x in frontier || (x in next && x !in seen))
    ensures !found && seen' == seen ==> frontier' == frontier
  {
    seen', frontier' := seen, frontier;
    for k := 0 to |next|
      invariant dst !in next[..k]
      invariant seen' == seen + (set x | x in next[..k])
      invariant forall x :: x in frontier' <==> x in frontier || (x in next[..k] && x !in seen)
      invariant seen' == seen ==> frontier' == frontier
    {
      var nxt := next[k];
      assert next[..k + 1] == next[..k] + [nxt];
      if nxt == dst { return true, seen', frontier'; }
      if nxt !in seen' {
        seen', frontier' := seen' + {nxt}, frontier' + [nxt];
      }
    }
    assert next[..|next|] == next;
    found := false;
  }

  /** Worklist search: true exactly when dst is reachable from src. */
  method Reaches(edges: seq<Edge>, src: string, dst: string) returns (r: bool)
    ensures r <==> Reachable(EdgeSet(edges), src, dst)
  {
    hide Reachable, EdgeSet, PathFrom, IsPath;
    ghost var e := EdgeSet(edges);
    ReachesSelf(e, src);
    if src == dst { return true; }
    var adj := Adjacency(edges);
    ghost var all := {src} + set x | x in e :: x.1;
    var seen, frontier := {src}, [src];
    while frontier != []
      invariant src in seen && dst !in seen && seen <= all
      invariant forall x :: x in seen ==> Reachable(e, src, x)
      invariant forall x :: x in frontier ==> x in seen
      invariant forall x :: x in e && x.0 in seen && x.0 !in frontier ==> x.1 in seen
      decreases |all - seen|, |frontier|
    {
      var node := frontier[|frontier| - 1];
      assert frontier == frontier[..|frontier| - 1] + [node];
      frontier := frontier[..|frontier| - 1];
      var next := if node in adj then adj[node] else [];
      forall x | x in next ensures (node, x) in e && x in all && Reachable(e, src, x) {
        assert (node, x).1 in all;
        ReachesNext(e, src, node, x);
      }
      ghost var seen0 := seen;
      var found;
      found, seen, frontier := Expand(next, dst, seen, frontier);
      if found { return true; }
      forall x | x in e && x.0 in seen && x.0 !in frontier ensures x.1 in seen {
        if x.0 == node {
          assert x == (node, x.1);
          assert x.1 in next;
        }
      }
      if seen != seen0 { FewerUnseen(all, seen0, seen); }
    }
    ClosedExcludes(e, seen, src, dst);
    r := false;
  }

  lemma FewerUnseen(all: set<string>, s: set<string>, t: set<string>)
    requires s <= t <= all && s != t
    ensures |all - t| < |all - s|
  {
    var x :| x in t && x !in s;
    ProperSubset(all - t, all - s, x);
  }

  lemma ProperSubset<T>(a: set<T>, b: set<T>, x: T)
    requires a <= b && x in b && x !in a
    ensures |a| < |b|
  {
    SubsetSize(a, b - {x});
  }

  lemma {:induction false} SubsetSize<T>(a: set<T>, b: set<T>)
    requires a <= b
    ensures |a| <= |b|
    ensures |a| == |b| ==> a == b
  {
    if a != {} {
      var x :| x in a;
      SubsetSize(a - {x}, b - {x});
    }
  }

  // ---- Structure.orderings_satisfiable (Kahn) -----------------------------------------------------

  ghost function Preds(e: set<Edge>, v: string): set<string> { set x | x in e && x.1 == v :: x.0 }

  ghost function Waiting(e: set<Edge>, v: string, done: set<string>): nat { |Preds(e, v) - done| }

  lemma PredsMember(e: set<Edge>, v: string, w: string)
    ensures w in Preds(e, v) <==> (w, v) in e
  {
    if w in Preds(e, v) {
      var x :| x in e && x.1 == v && x.0 == w;
      assert x == (w, v);
    }
    if (w, v) in e { assert (w, v).0 == w; }
  }

  lemma WaitingStep(e: set<Edge>, v: string, done: set<string>, n: string)
    requires n !in done
    ensures Waiting(e, v, done) == Waiting(e, v, done + {n}) + if (n, v) in e then 1 else 0
  {
    var a, b := Preds(e, v) - done, Preds(e, v) - (done + {n});
    if (n, v) in e {
      assert (n, v).0 in Preds(e, v);
      assert a == b + {n} && n !in b;
    } else {
      PredsMember(e, v, n);
      assert a == b;
    }
  }

  ghost predicate Counts(e: set<Edge>, nodes: set<string>, indegree: map<string, int>, adj: map<string, seq<string>>) {
    && indegree.Keys == nodes && adj.Keys == nodes
    && (forall v :: v in nodes ==> indegree[v] == Waiting(e, v, {}))
    && (forall a :: a in nodes ==> Distinct(adj[a]) && forall b :: b in adj[a] <==> (a, b) in e)
  }

  lemma CountsStep(e: set<Edge>, x: Edge, v: string)
    requires x !in e
    ensures Waiting(e + {x}, v, {}) == Waiting(e, v, {}) + if x.1 == v then 1 else 0
  {
    var a, b := Preds(e + {x}, v), Preds(e, v);
    forall w ensures w in a <==> w in b || (x.1 == v && w == x.0) {
      PredsMember(e + {x}, v, w);
      PredsMember(e, v, w);
    }
    PredsMember(e, v, x.0);
    assert a - {} == a && b - {} == b;
    if x.1 == v { assert a == b + {x.0}; } else { assert a == b; }
  }

  /** indegree and adjacency of the edge set, or None on a self-loop. */
  datatype Degrees = SelfLoop | Degrees(indegree: map<string, int>, adj: map<string, seq<string>>)

  method CountDegrees(combined: set<Edge>, nodes: set<string>) returns (r: Degrees)
    requires forall x :: x in combined ==> x.0 in nodes && x.1 in nodes
    ensures r.SelfLoop? <==> exists x :: x in combined && x.0 == x.1
    ensures r.Degrees? ==> Counts(combined, nodes, r.indegree, r.adj)
  {
    hide Counts;
    var indegree := map v | v in nodes :: 0;
    var adj: map<string, seq<string>> := map v | v in nodes :: [];
    var todo := combined;
    ghost var done := {};
    NoEdges(nodes, indegree);
    while todo != {}
      invariant done !! todo && done + todo == combined
      invariant Counts(done, nodes, indegree, adj) && indegree.Keys == nodes && adj.Keys == nodes
      invariant forall x :: x in done ==> x.0 != x.1
    {
      var x :| x in todo;
      todo := todo - {x};
      if x.0 == x.1 { return SelfLoop; }
      AddEdge(done, nodes, indegree, adj, x);
      adj := adj[x.0 := adj[x.0] + [x.1]];
      indegree := indegree[x.1 := indegree[x.1] + 1];
      done := done + {x};
    }
    r := Degrees(indegree, adj);
  }

  lemma NoEdges(nodes: set<string>, indegree: map<string, int>)
    requires indegree == map v | v in nodes :: 0
    ensures Counts({}, nodes, indegree, map v | v in nodes :: [])
  {
    forall v | v in nodes ensures Waiting({}, v, {}) == 0 { assert Preds({}, v) - {} == {}; }
  }

  lemma AddEdge(e: set<Edge>, nodes: set<string>, indegree: map<string, int>, adj: map<string, seq<string>>, x: Edge)
    requires Counts(e, nodes, indegree, adj) && x !in e && x.0 in nodes && x.1 in nodes
    ensures Counts(e + {x}, nodes, indegree[x.1 := indegree[x.1] + 1], adj[x.0 := adj[x.0] + [x.1]])
  {
    hide Waiting;
    forall v | v in nodes ensures indegree[x.1 := indegree[x.1] + 1][v] == Waiting(e + {x}, v, {}) {
      CountsStep(e, x, v);
    }
  }

  /** The loop state of Kahn's algorithm: popped nodes ranked, the rest counting their unpopped predecessors. */
  ghost predicate Kahn(e: set<Edge>, nodes: set<string>, indegree: map<string, int>, ready: seq<string>,
      rank: map<string, int>) {
    && indegree.Keys == nodes && rank.Keys <= nodes && Distinct(ready)
    && (forall v :: v in ready ==> v in nodes && v !in rank)
    && (forall v :: v in nodes ==> indegree[v] == Waiting(e, v, rank.Keys))
    && (forall v :: v in nodes ==> (indegree[v] == 0 <==> v in ready || v in rank))
    && (forall v :: v in rank ==> rank[v] < |rank|)
    && forall x :: x in e && x.1 in rank ==> x.0 in rank && rank[x.0] < rank[x.1]
  }

  lemma SubsetOrExtra(a: set<string>, b: set<string>)
    ensures a <= b || exists v :: v in a - b
  {
    if !(a <= b) {
      var v :| v in a && v !in b;
      assert v in a - b;
    }
  }

  lemma NoneWaiting(e: set<Edge>, v: string, done: set<string>)
    ensures Waiting(e, v, done) == 0 <==> forall w :: (w, v) in e ==> w in done
  {
    forall w ensures w in Preds(e, v) <==> (w, v) in e { PredsMember(e, v, w); }
    if forall w :: (w, v) in e ==> w in done { assert Preds(e, v) - done == {}; }
    if Waiting(e, v, done) == 0 {
      assert Preds(e, v) - done == {};
      SubsetOrExtra(Preds(e, v), done);
    }
  }

  lemma Missing(a: set<string>, b: set<string>)
    requires a <= b && |a| != |b|
    ensures exists v :: v in b - a
  {
    SubsetOrExtra(b, a);
    SubsetSize(a, b);
    if b <= a { SubsetSize(b, a); }
  }

  lemma UnpoppedHasPred(e: set<Edge>, nodes: set<string>, indegree: map<string, int>, rank: map<string, int>, v: string)
    requires Kahn(e, nodes, indegree, [], rank) && v in nodes && v !in rank
    ensures exists w :: w !in rank && (w, v) in e
  {
    hide Waiting;
    NoneWaiting(e, v, rank.Keys);
  }

  lemma Stuck(e: set<Edge>, nodes: set<string>, indegree: map<string, int>, rank: map<string, int>)
    requires Kahn(e, nodes, indegree, [], rank)
    requires forall x :: x in e ==> x.0 in nodes && x.1 in nodes
    ensures forall v :: v in nodes - rank.Keys ==> exists w :: w in nodes - rank.Keys && (w, v) in e
  {
    hide Kahn;
    forall v | v in nodes - rank.Keys ensures exists w :: w in nodes - rank.Keys && (w, v) in e {
      UnpoppedHasPred(e, nodes, indegree, rank, v);
      var w :| w !in rank && (w, v) in e;
      assert (w, v).0 in nodes;
    }
  }

  lemma AllPopped(e: set<Edge>, nodes: set<string>, indegree: map<string, int>, rank: map<string, int>)
    requires Kahn(e, nodes, indegree, [], rank) && |rank| == |nodes|
    requires forall x :: x in e ==> x.0 in nodes && x.1 in nodes
    ensures !Cyclic(e)
  {
    hide Cyclic, Waiting, Distinct;
    SubsetSize(rank.Keys, nodes);
    RankedIsAcyclic(e, rank);
  }

  lemma SomeUnpopped(e: set<Edge>, nodes: set<string>, indegree: map<string, int>, rank: map<string, int>)
    requires Kahn(e, nodes, indegree, [], rank) && |rank| != |nodes| && rank.Keys <= nodes
    requires forall x :: x in e ==> x.0 in nodes && x.1 in nodes
    ensures Cyclic(e)
  {
    hide Cyclic, Kahn;
    Stuck(e, nodes, indegree, rank);
    assert |rank| == |rank.Keys|;
    Missing(rank.Keys, nodes);
    var v :| v in nodes - rank.Keys;
    WalkBackComesRound(e, nodes - rank.Keys, [v]);
  }

  /** All nodes popped: the pop order ranks every edge. Otherwise the unpopped nodes wait for each other. */
  lemma KahnVerdict(e: set<Edge>, nodes: set<string>, indegree: map<string, int>, rank: map<string, int>)
    requires Kahn(e, nodes, indegree, [], rank) && rank.Keys <= nodes
    requires forall x :: x in e ==> x.0 in nodes && x.1 in nodes
    ensures |rank| == |nodes| <==> !Cyclic(e)
  {
    hide Kahn, Cyclic;
    if |rank| == |nodes| { AllPopped(e, nodes, indegree, rank); } else { SomeUnpopped(e, nodes, indegree, rank); }
  }

  lemma Pop(e: set<Edge>, nodes: set<string>, indegree: map<string, int>, ready: seq<string>, rank: map<string, int>)
    requires Kahn(e, nodes, indegree, ready, rank) && ready != []
    ensures var node := ready[|ready| - 1];
      && node in nodes && node !in rank && (forall w :: (w, node) in e ==> w in rank)
      && Draining(e, nodes, indegree, ready[..|ready| - 1], rank[node := |rank|], node,
        set w | w in nodes && (node, w) in e)
  {
    hide Waiting, Distinct;
    var node := ready[|ready| - 1];
    NoneWaiting(e, node, rank.Keys);
    var rank' := rank[node := |rank|];
    assert rank'.Keys == rank.Keys + {node};
    forall v | v in nodes ensures indegree[v] == Waiting(e, v, rank'.Keys) + if (node, v) in e then 1 else 0 {
      WaitingStep(e, v, rank.Keys, node);
    }
    PopReady(ready);
  }

  lemma PopReady(ready: seq<string>)
    requires Distinct(ready) && ready != []
    ensures Distinct(ready[..|ready| - 1]) && ready[|ready| - 1] !in ready[..|ready| - 1]
    ensures forall v :: v in ready <==> v in ready[..|ready| - 1] || v == ready[|ready| - 1]
  {
    assert ready == ready[..|ready| - 1] + [ready[|ready| - 1]];
  }

  /** Inside one pop: the successors still in due have not been decremented for node yet. */
  ghost predicate Draining(e: set<Edge>, nodes: set<string>, indegree: map<string, int>, ready: seq<string>,
      rank: map<string, int>,
                           node: string, due: set<string>) {
    && indegree.Keys == nodes && rank.Keys <= nodes && Distinct(ready)
    && (forall v :: v in ready ==> v in nodes && v !in rank)
    && (forall v :: v in nodes ==> indegree[v] == Waiting(e, v, rank.Keys) + if v in due then 1 else 0)
    && (forall v :: v in nodes ==> (indegree[v] == 0 <==> v in ready || v in rank))
    && (forall v :: v in rank ==> rank[v] < |rank|)
    && (forall x :: x in e && x.1 in rank ==> x.0 in rank && rank[x.0] < rank[x.1])
    && forall v :: v in due ==> (node, v) in e
  }

  /** Decrement one due successor, queueing it when nothing else holds it back. */
  lemma Drain(e: set<Edge>, nodes: set<string>, indegree: map<string, int>, ready: seq<string>, rank: map<string, int>,
              node: string, due: set<string>, v: string)
    requires Draining(e, nodes, indegree, ready, rank, node, due) && v in due && v in nodes
    ensures Draining(e, nodes, indegree[v := indegree[v] - 1],
      if indegree[v] - 1 == 0 then ready + [v] else ready, rank, node, due - {v})
  {
    hide Waiting;
  }

  lemma SelfLoopIsCycle(e: set<Edge>)
    requires exists x :: x in e && x.0 == x.1
    ensures Cyclic(e)
  {
    var x :| x in e && x.0 == x.1;
    assert x == (x.0, x.1);
    assert IsCycle(e, [x.0, x.1]);
  }

  method InitiallyReady(nodes: set<string>, indegree: map<string, int>) returns (ready: seq<string>)
    requires indegree.Keys == nodes
    ensures Distinct(ready) && forall v :: v in ready <==> v in nodes && indegree[v] == 0
  {
    ready := [];
    var todo := nodes;
    while todo != {}
      invariant todo <= nodes && Distinct(ready)
      invariant forall v :: v in ready <==> v in nodes && v !in todo && indegree[v] == 0
    {
      var v :| v in todo;
      todo := todo - {v};
      if indegree[v] == 0 { ready := ready + [v]; }
    }
  }

  lemma StartKahn(e: set<Edge>, nodes: set<string>, indegree: map<string, int>, adj: map<string, seq<string>>,
      ready: seq<string>)
    requires Counts(e, nodes, indegree, adj) && (forall x :: x in e ==> x.0 in nodes && x.1 in nodes)
    requires Distinct(ready) && forall v :: v in ready <==> v in nodes && indegree[v] == 0
    ensures Kahn(e, nodes, indegree, ready, map[])
  {
    hide Waiting;
    var none: map<string, int> := map[];
    assert none.Keys == {};
  }

  function Rest(xs: seq<string>, k: nat): set<string>
    requires k <= |xs|
  {
    set x | x in xs[k..]
  }

  lemma SuccessorsDue(e: set<Edge>, nodes: set<string>, indegree: map<string, int>, adj: map<string, seq<string>>,
      node: string)
    requires Counts(e, nodes, indegree, adj) && node in nodes && forall x :: x in e ==> x.0 in nodes && x.1 in nodes
    ensures node in adj && Distinct(adj[node]) && Rest(adj[node], 0) == set w | w in nodes && (node, w) in e
    ensures forall w :: w in adj[node] ==> w in nodes
  {
    hide Waiting;
    var xs := adj[node];
    assert xs[0..] == xs;
    forall w ensures w in xs <==> w in nodes && (node, w) in e {
      if (node, w) in e { assert (node, w).1 in nodes; }
    }
  }

  lemma NextDue(xs: seq<string>, k: nat)
    requires Distinct(xs) && k < |xs|
    ensures xs[k] in Rest(xs, k) && Rest(xs, k + 1) == Rest(xs, k) - {xs[k]}
  {
    assert xs[k..] == [xs[k]] + xs[k + 1..];
  }

  lemma Drained(e: set<Edge>, nodes: set<string>, indegree: map<string, int>, ready: seq<string>,
      rank: map<string, int>, node: string)
    requires Draining(e, nodes, indegree, ready, rank, node, {})
    ensures Kahn(e, nodes, indegree, ready, rank)
  {
    hide Waiting;
  }

  function Nodes(kinds: set<string>, e: set<Edge>): (n: set<string>)
    ensures kinds <= n && forall x :: x in e ==> x.0 in n && x.1 in n
  {
    kinds + (set x | x in e :: x.0) + (set x | x in e :: x.1)
  }

  /** Kahn's algorithm on the union of the structure's edges and the stated orderings. */
  method OrderingsSatisfiable(kinds: set<string>, edges: seq<Edge>, orderings: seq<Edge>) returns (ok: bool)
    ensures ok <==> !Cyclic(EdgeSet(edges) + EdgeSet(orderings))
  {
    hide Kahn, Draining, Cyclic, Counts, Waiting, EdgeSet, Rest, Distinct, Nodes;
    var combined := EdgeSet(edges) + EdgeSet(orderings);
    var nodes := Nodes(kinds, combined);
    var degrees := CountDegrees(combined, nodes);
    if degrees.SelfLoop? {
      SelfLoopIsCycle(combined);
      return false;
    }
    var indegree, adj := degrees.indegree, degrees.adj;
    ghost var start := indegree;
    KeysOf(combined, nodes, indegree, adj);
    var ready := InitiallyReady(nodes, indegree);
    var seen := 0;
    ghost var rank: map<string, int> := map[];
    StartKahn(combined, nodes, indegree, adj, ready);
    while ready != []
      invariant Kahn(combined, nodes, indegree, ready, rank) && seen == |rank| && rank.Keys <= nodes
        && indegree.Keys == nodes
      decreases |nodes| - |rank|
    {
      Pop(combined, nodes, indegree, ready, rank);
      var node := ready[|ready| - 1];
      ready := ready[..|ready| - 1];
      seen, rank := seen + 1, rank[node := |rank|];
      SuccessorsDue(combined, nodes, start, adj, node);
      for k := 0 to |adj[node]|
        invariant Draining(combined, nodes, indegree, ready, rank, node, Rest(adj[node], k)) && indegree.Keys == nodes
      {
        var nxt := adj[node][k];
        NextDue(adj[node], k);
        Drain(combined, nodes, indegree, ready, rank, node, Rest(adj[node], k), nxt);
        indegree := indegree[nxt := indegree[nxt] - 1];
        if indegree[nxt] == 0 { ready := ready + [nxt]; }
      }
      NothingDue(adj[node]);
      Drained(combined, nodes, indegree, ready, rank, node);
      SubsetSize(rank.Keys, nodes);
    }
    KahnVerdict(combined, nodes, indegree, rank);
    ok := seen == |nodes|;
  }

  lemma NothingDue(xs: seq<string>)
    ensures Rest(xs, |xs|) == {}
  {
  }

  lemma KeysOf(e: set<Edge>, nodes: set<string>, indegree: map<string, int>, adj: map<string, seq<string>>)
    requires Counts(e, nodes, indegree, adj)
    ensures indegree.Keys == adj.Keys == nodes
  {
  }
}
