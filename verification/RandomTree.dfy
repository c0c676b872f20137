/** The graph builders (`mg_generate`): `GenRandomTree` yields a tree whatever the
    random draws are. */
module RandomTree {
  import opened GraphRuns
  import opened Options
  import opened GraphView
  import opened GraphObject

  // ---- trees

  /** A path of nodes along live edges. */
  ghost predicate IsPath(edges: seq<Edge>, path: seq<nat>) {
    path != [] && forall i :: 0 <= i < |path| - 1 ==> Adjacent(edges, path[i], path[i + 1])
  }

  ghost predicate Adjacent(edges: seq<Edge>, u: nat, v: nat) {
    exists e :: 0 <= e < |edges| && Live(edges[e]) && Joins(edges[e], u, v)
  }

  ghost predicate Reaches(edges: seq<Edge>, u: nat, v: nat) {
    exists path :: IsPath(edges, path) && path[0] == u && path[|path| - 1] == v
  }

  /** A closed walk over pairwise different edges; a self-loop or a pair of
      parallel edges is one. */
  ghost predicate IsCycle(edges: seq<Edge>, nodes: seq<nat>, via: seq<nat>) {
    && |nodes| == |via| > 0
    && (forall i, j :: 0 <= i < j < |via| ==> via[i] != via[j])
    && (forall i :: 0 <= i < |via| ==>
          && via[i] < |edges| && Live(edges[via[i]])
          && Joins(edges[via[i]], nodes[i], nodes[if i + 1 == |via| then 0 else i + 1]))
  }

  /** `n` nodes, one edge less, all reachable from node 0, and no cycle. */
  ghost predicate IsTree(s: State) {
    && s.nodes != [] && |s.edges| == |s.nodes| - 1
    && (forall i :: 0 <= i < |s.edges| ==> Live(s.edges[i]))
    && (forall v :: 0 <= v < |s.nodes| ==> Reaches(s.edges, 0, v))
    && (forall nodes, via :: !IsCycle(s.edges, nodes, via))
  }

  /** Edge `i` joins node `i + 1` to a node before it. */
  ghost predicate Parented(edges: seq<Edge>) {
    forall i :: 0 <= i < |edges| ==> edges[i].to == i + 1 && edges[i].from <= i && Live(edges[i])
  }

  lemma {:induction false} AllReachable(edges: seq<Edge>, v: nat)
    requires Parented(edges) && v <= |edges|
    ensures Reaches(edges, 0, v)
  {
    if v == 0 {
      assert IsPath(edges, [0]) && [0][0] == 0 && [0][|[0]| - 1] == 0;
    } else {
      var p := edges[v - 1].from;
      AllReachable(edges, p);
      var path :| IsPath(edges, path) && path[0] == 0 && path[|path| - 1] == p;
      assert Joins(edges[v - 1], p, v);
      assert IsPath(edges, path + [v]) by {
        forall i | 0 <= i < |path| ensures Adjacent(edges, (path + [v])[i], (path + [v])[i + 1]) {
          if i < |path| - 1 { assert Adjacent(edges, path[i], path[i + 1]); }
        }
      }
    }
  }

  /** A node has one edge to a node that is not after it. */
  lemma {:induction false} EdgeDown(edges: seq<Edge>, e: nat, x: nat, y: nat)
    requires Parented(edges) && e < |edges| && Joins(edges[e], x, y) && y <= x
    ensures e + 1 == x && x != y
  {}

  lemma {:induction false} MaxIndex(nodes: seq<nat>) returns (m: nat)
    requires nodes != []
    ensures m < |nodes| && forall i :: 0 <= i < |nodes| ==> nodes[i] <= nodes[m]
  {
    m := 0;
    for i := 0 to |nodes|
      invariant 0 <= m < |nodes|
      invariant forall j :: 0 <= j < i ==> nodes[j] <= nodes[m]
    {
      if nodes[i] > nodes[m] { m := i; }
    }
  }

  /** At its largest node a cycle would have to come and go by the same edge. */
  lemma {:induction false} NoCycle(edges: seq<Edge>, nodes: seq<nat>, via: seq<nat>)
    requires Parented(edges)
    ensures !IsCycle(edges, nodes, via)
  {
    if IsCycle(edges, nodes, via) {
      var k := |via|;
      var m := MaxIndex(nodes);
      var next, prev := if m + 1 == k then 0 else m + 1, if m == 0 then k - 1 else m - 1;
      EdgeDown(edges, via[m], nodes[m], nodes[next]);
      assert Joins(edges[via[prev]], nodes[prev], nodes[m]);
      EdgeDown(edges, via[prev], nodes[m], nodes[prev]);
      assert false;
    }
  }

  lemma {:induction false} ParentedIsTree(s: State)
    requires Parented(s.edges) && |s.nodes| == |s.edges| + 1
    ensures IsTree(s)
  {
    forall v | 0 <= v < |s.nodes| ensures Reaches(s.edges, 0, v) { AllReachable(s.edges, v); }
    forall nodes, via ensures !IsCycle(s.edges, nodes, via) { NoCycle(s.edges, nodes, via); }
  }

  // ---- the builders

  /** The pairs whose ends are nodes; `CreateEdge` refuses the others. */
  function Kept(pairs: seq<(nat, nat)>, n: nat): (r: seq<(nat, nat)>) {
    if pairs == [] then []
    else
      var front, p := pairs[..|pairs| - 1], pairs[|pairs| - 1];
      if p.0 < n && p.1 < n then Kept(front, n) + [p] else Kept(front, n)
  }

  /** Exactly those of the pairs, in order. */
  lemma {:induction false} KeptMeans(a: seq<(nat, nat)>, b: seq<(nat, nat)>, n: nat)
    ensures Kept(a + b, n) == Kept(a, n) + Kept(b, n)
    ensures forall p: (nat, nat) :: Kept([p], n) == if p.0 < n && p.1 < n then [p] else []
  {
    KeptAppend(a, b, n);
    forall p: (nat, nat) ensures Kept([p], n) == if p.0 < n && p.1 < n then [p] else [] { assert [p][..0] == []; }
  }

  lemma {:induction false} KeptAppend(a: seq<(nat, nat)>, b: seq<(nat, nat)>, n: nat)
    ensures Kept(a + b, n) == Kept(a, n) + Kept(b, n)
  {
    if b == [] {
      assert a + b == a && Kept(a, n) + [] == Kept(a, n);
    } else {
      var front, p := b[..|b| - 1], b[|b| - 1];
      KeptAppend(a, front, n);
      KeptNext(a + front, p, n);
      KeptNext(front, p, n);
      assert a + b == (a + front) + [p] && b == front + [p];
    }
  }

  lemma {:induction false} KeptNext(front: seq<(nat, nat)>, p: (nat, nat), n: nat)
    ensures Kept(front + [p], n) == if p.0 < n && p.1 < n then Kept(front, n) + [p] else Kept(front, n)
  {
    assert (front + [p])[..|front|] == front;
  }

  lemma {:induction false} AllKept(pairs: seq<(nat, nat)>, n: nat)
    requires forall i :: 0 <= i < |pairs| ==> pairs[i].0 < n && pairs[i].1 < n
    ensures Kept(pairs, n) == pairs
  {
    if pairs != [] {
      AllKept(pairs[..|pairs| - 1], n);
      assert pairs[..|pairs| - 1] + [pairs[|pairs| - 1]] == pairs;
    }
  }

  method NewNodes(n: nat) returns (g: Graph)
    ensures fresh(g) && Agree(g.Snapshot()) && Identical(g.Snapshot(), n)
    ensures g.edges == [] && g.made == []
  {
    g := new Graph(false);
    for i := 0 to n
      invariant fresh(g) && Agree(g.Snapshot()) && Identical(g.Snapshot(), i)
      invariant g.edges == [] && g.made == []
    {
      var _ := g.CreateNode(i);
    }
  }

  ghost predicate Built(g: Graph, n: nat, kept: seq<(nat, nat)>, kind: GraphType)
    reads g
  {
    Agree(g.Snapshot()) && Identical(g.Snapshot(), n) && HoldsPairs(g.edges, g.made, kept, kind)
  }

  method AddPair(g: Graph, n: nat, from: nat, to: nat, kind: GraphType, ghost kept: seq<(nat, nat)>)
    requires Built(g, n, kept, kind) && |kept| < DELETED
    modifies g
    ensures Built(g, n, kept + if from < n && to < n then [(from, to)] else [], kind)
  {
    NextPair(g.Snapshot(), n, from, to, kept, kind);
    var _ := g.CreateEdge(from, to, kind, None, false, 0.0);
  }

  lemma {:induction false} KeptSize(pairs: seq<(nat, nat)>, n: nat)
    ensures |Kept(pairs, n)| <= |pairs|
  {
    if pairs != [] { KeptSize(pairs[..|pairs| - 1], n); }
  }

  method BuildGraph(n: nat, pairs: seq<(nat, nat)>, kind: GraphType) returns (g: Graph)
    requires |pairs| <= DELETED
    ensures fresh(g) && Built(g, n, Kept(pairs, n), kind)
  {
    g := NewNodes(n);
    for i := 0 to |pairs|
      invariant fresh(g) && Built(g, n, Kept(pairs[..i], n), kind)
    {
      assert pairs[..i + 1][..i] == pairs[..i];
      KeptSize(pairs[..i], n);
      AddPair(g, n, pairs[i].0, pairs[i].1, kind, Kept(pairs[..i], n));
    }
    assert pairs[..|pairs|] == pairs;
  }

  lemma {:induction false} BuiltParented(edges: seq<Edge>, made: seq<Made>, pairs: seq<(nat, nat)>, kind: GraphType)
    requires HoldsPairs(edges, made, pairs, kind) && |pairs| < DELETED
    requires forall j :: 0 <= j < |pairs| ==> pairs[j].0 <= j && pairs[j].1 == j + 1
    ensures Parented(edges)
  {}

  /** Every draw is an arbitrary earlier node. */
  method GenRandomTree(n: nat, kind: GraphType) returns (g: Graph)
    requires n <= DELETED
    ensures fresh(g) && Agree(g.Snapshot()) && |g.nodes| == n
    ensures forall i :: 0 <= i < |g.made| ==> g.made[i].kind == kind
    ensures n >= 1 ==> IsTree(g.Snapshot())
  {
    var pairs: seq<(nat, nat)> := [];
    var i := 1;
    while i < n
      invariant 1 <= i && (if n == 0 then i == 1 else i <= n) && |pairs| == i - 1
      invariant forall j :: 0 <= j < |pairs| ==> pairs[j].0 <= j && pairs[j].1 == j + 1
    {
      var parent: nat :| parent <= i - 1;
      pairs := pairs + [(parent, i)];
      i := i + 1;
    }
    AllKept(pairs, n);
    g := BuildGraph(n, pairs, kind);
    assert Parented(g.edges) by { BuiltParented(g.edges, g.made, pairs, kind); }
    if n >= 1 { ParentedIsTree(g.Snapshot()); }
  }
}
