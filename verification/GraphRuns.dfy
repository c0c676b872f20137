/** Whole runs of the graph view: every sequence of creations, with erasures that
    meet the condition of `EraseAgreesIff`, keeps all structures in agreement. */
module GraphRuns {
  import opened Options
  import opened GraphView
  import opened GraphCounts
  import opened GraphErase

  /** One step.  An erasure names what its lookup in the multimap gives. */
  datatype Op =
    | NewNode(mgId: nat)
    | NewEdge(mgFrom: nat, mgTo: nat, mgEdge: Option<nat>, how: Made)
    | Erase(u: nat, v: nat, found: nat)

  ghost function Apply(s: State, op: Op): (r: State)
    requires Shaped(s)
    ensures |r.edges| <= |s.edges| + 1
  {
    match op
    case NewNode(m) => CreateNode(s, m).0
    case NewEdge(f, t, k, m) => CreateEdge(s, f, t, k, m)
    case Erase(u, v, e) => if EraseEdge(s, u, v, e).Some? then EraseEdge(s, u, v, e).value else s
  }

  /** The lookup gives one of the edges of the pair, if there is any. */
  ghost predicate Possible(s: State, op: Op) {
    op.Erase? ==> Found(s.edges, op.u, op.v, op.found)
  }

  /** The condition of `EraseAgreesIff` on an erasure. */
  ghost predicate Allowed(s: State, op: Op)
    requires Shaped(s)
  {
    op.Erase? && op.u < |s.nodes| && op.v < |s.nodes| ==> EraseOk(s, op.u, op.v, op.found)
  }

  lemma {:induction false} StepAgrees(s: State, op: Op)
    requires Agree(s) && Possible(s, op) && Allowed(s, op) && |s.edges| < DELETED
    ensures Agree(Apply(s, op))
  {
    match op
    case NewNode(m) => CreateNodeKeeps(s, m);
    case NewEdge(f, t, k, m) => CreateEdgeKeeps(s, f, t, k, m);
    case Erase(u, v, e) => ErasureAgrees(s, u, v, e);
  }

  lemma {:induction false} ErasureAgrees(s: State, u: nat, v: nat, e: nat)
    requires Agree(s) && Possible(s, Erase(u, v, e)) && Allowed(s, Erase(u, v, e))
    ensures Agree(Apply(s, Erase(u, v, e)))
  {
    if u < |s.nodes| && v < |s.nodes| { EraseAgreesIff(s, u, v, e); }
  }

  /** `ops` is a run from `s` all of whose erasures are allowed, ending in `r`. */
  ghost predicate Run(s: State, ops: seq<Op>, r: State)
    decreases |ops|
  {
    if ops == [] then r == s
    else Shaped(s) && Possible(s, ops[0]) && Allowed(s, ops[0]) && Run(Apply(s, ops[0]), ops[1..], r)
  }

  /** Every state of every such run has all its structures in agreement. */
  lemma {:induction false} RunAgrees(s: State, ops: seq<Op>, r: State)
    requires Agree(s) && |s.edges| + |ops| <= DELETED
    requires Run(s, ops, r)
    ensures Agree(r)
    decreases |ops|
  {
    if ops != [] {
      StepAgrees(s, ops[0]);
      RunAgrees(Apply(s, ops[0]), ops[1..], r);
    }
  }

  // ---- runs whose erasures are safe whatever the lookups give

  /** The condition of `EraseSafeIff`, which does not look at the lookup. */
  ghost predicate Safe(s: State, op: Op)
    requires Shaped(s)
  {
    op.Erase? && op.u < |s.nodes| && op.v < |s.nodes| ==> EraseSafe(s, op.u, op.v)
  }

  lemma {:induction false} SafeIsAllowed(s: State, op: Op)
    requires Shaped(s) && Possible(s, op) && Safe(s, op)
    ensures Allowed(s, op)
  {
    if op.Erase? && op.u < |s.nodes| && op.v < |s.nodes| { SafeIsOk(s, op.u, op.v, op.found); }
  }

  ghost predicate SafeRun(s: State, ops: seq<Op>, r: State)
    decreases |ops|
  {
    if ops == [] then r == s
    else Shaped(s) && Possible(s, ops[0]) && Safe(s, ops[0]) && SafeRun(Apply(s, ops[0]), ops[1..], r)
  }

  /** Checking every erasure before the call is enough, for every choice the
      lookups make. */
  lemma {:induction false} SafeRunAgrees(s: State, ops: seq<Op>, r: State)
    requires Agree(s) && |s.edges| + |ops| <= DELETED
    requires SafeRun(s, ops, r)
    ensures Agree(r) && Run(s, ops, r)
    decreases |ops|
  {
    if ops != [] {
      SafeIsAllowed(s, ops[0]);
      StepAgrees(s, ops[0]);
      SafeRunAgrees(Apply(s, ops[0]), ops[1..], r);
    }
  }

  // ---- runs that use each unordered pair at most once

  ghost predicate OncePerPair(edges: seq<Edge>) {
    && (forall i :: 0 <= i < |edges| ==> edges[i].from != edges[i].to)
    && (forall i, j :: 0 <= i < j < |edges| ==> !Joins(edges[i], edges[j].from, edges[j].to))
  }

  /** A new edge is no self-loop and between nodes never joined. */
  ghost predicate FirstUse(s: State, op: Op)
    requires Shaped(s)
  {
    op.NewEdge? && EdgeOutcome(s, op.mgFrom, op.mgTo, op.mgEdge).Created? ==>
      var f, t := s.mgToInner[op.mgFrom], s.mgToInner[op.mgTo];
      f != t && forall i :: 0 <= i < |s.edges| ==> !Joins(s.edges[i], f, t)
  }

  /** With one edge per pair, no other edge joins the nodes of edge `l`. */
  lemma {:induction false} OnlyJoin(edges: seq<Edge>, u: nat, v: nat, l: nat)
    requires OncePerPair(edges) && l < |edges| && Joins(edges[l], u, v)
    ensures u != v && forall i :: 0 <= i < |edges| && i != l ==> !Joins(edges[i], u, v)
  {
    forall i | 0 <= i < |edges| && i != l ensures !Joins(edges[i], u, v) {
      var e, f := edges[i], edges[l];
      assert if i < l then !Joins(e, f.from, f.to) else !Joins(f, e.from, e.to);
    }
  }

  /** Every live edge between the nodes is the one edge there is. */
  lemma {:induction false} OnlyLead(s: State, u: nat, v: nat, e: nat)
    requires Shaped(s) && OncePerPair(s.edges) && e < |s.edges| && Joins(s.edges[e], u, v)
    ensures FirstLead(s.edges, s.made, u, v, 0) in {|s.edges|, e} &&
            FirstLead(s.edges, s.made, v, u, 0) in {|s.edges|, e}
    ensures Live(s.edges[e]) <==>
              FirstLead(s.edges, s.made, u, v, 0) == e || FirstLead(s.edges, s.made, v, u, 0) == e
  {
    var l, m := FirstLead(s.edges, s.made, u, v, 0), FirstLead(s.edges, s.made, v, u, 0);
    OnlyJoin(s.edges, u, v, e);
    assert l < |s.edges| ==> Joins(s.edges[l], u, v);
    assert m < |s.edges| ==> Joins(s.edges[m], u, v);
    assert Live(s.edges[e]) ==>
             Leads(s.edges[e], s.made[e], u, Neighbour(v, e)) || Leads(s.edges[e], s.made[e], v, Neighbour(u, e));
  }

  /** In such a run every erasure is safe. */
  lemma {:induction false} OnceIsSafe(s: State, op: Op)
    requires Shaped(s) && OncePerPair(s.edges)
    ensures Safe(s, op)
  {
    if op.Erase? {
      forall i, j | 0 <= i < j < |s.edges| ensures !(Joins(s.edges[i], op.u, op.v) && Joins(s.edges[j], op.u, op.v)) {
        if Joins(s.edges[i], op.u, op.v) { OnlyJoin(s.edges, op.u, op.v, i); }
      }
      forall e | 0 <= e < |s.edges| ensures !Joins(s.edges[e], op.u, op.u) {
        assert s.edges[e].from != s.edges[e].to;
      }
    }
  }

  lemma {:induction false} OnceGrows(edges: seq<Edge>, e: Edge)
    requires OncePerPair(edges) && e.from != e.to && forall i :: 0 <= i < |edges| ==> !Joins(edges[i], e.from, e.to)
    ensures OncePerPair(edges + [e])
  {
    var all := edges + [e];
    assert forall i :: 0 <= i < |edges| ==> all[i] == edges[i];
    assert all[|edges|] == e;
  }

  lemma {:induction false} OnceMarked(edges: seq<Edge>, l: nat)
    requires OncePerPair(edges)
    ensures OncePerPair(Mark(edges, l))
  {
    forall i, j | 0 <= i < j < |edges|
      ensures !Joins(Mark(edges, l)[i], Mark(edges, l)[j].from, Mark(edges, l)[j].to)
    {
      assert !Joins(edges[i], edges[j].from, edges[j].to);
    }
  }

  lemma {:induction false} OnceKept(s: State, op: Op)
    requires Agree(s) && OncePerPair(s.edges) && Possible(s, op) && FirstUse(s, op) && |s.edges| < DELETED
    ensures OncePerPair(Apply(s, op).edges)
  {
    match op
    case NewNode(_) =>
    case NewEdge(f, t, k, m) =>
      if EdgeOutcome(s, f, t, k).Created? {
        OnceGrows(s.edges, Edge(|s.edges|, s.mgToInner[f], s.mgToInner[t]));
      }
    case Erase(u, v, e) =>
      if u < |s.nodes| && v < |s.nodes| && e < |s.edges| { OnceErased(s, u, v, e); }
  }

  lemma {:induction false} MarkBoth(edges: seq<Edge>, l: nat, m: nat, e: nat)
    requires l in {|edges|, e} && m in {|edges|, e} && e < |edges|
    ensures Mark(Mark(edges, l), m) == if l == e || m == e then Mark(edges, e) else edges
  {
    assert Mark(Mark(edges, e), e) == Mark(edges, e);
  }

  lemma {:induction false} OnceErased(s: State, u: nat, v: nat, e: nat)
    requires Agree(s) && OncePerPair(s.edges) && u < |s.nodes| && v < |s.nodes|
    requires e < |s.edges| && Joins(s.edges[e], u, v)
    ensures var r := EraseEdge(s, u, v, e).value;
            OncePerPair(r.edges) && r.edges == if Live(s.edges[e]) then Mark(s.edges, e) else s.edges
  {
    OnlyJoin(s.edges, u, v, e);
    OnlyLead(s, u, v, e);
    OnceMarked(s.edges, e);
    MarkBoth(s.edges, FirstLead(s.edges, s.made, u, v, 0), FirstLead(s.edges, s.made, v, u, 0), e);
    EraseMarks(s, u, v, e);
  }

  ghost predicate OnceRun(s: State, ops: seq<Op>, r: State)
    decreases |ops|
  {
    if ops == [] then r == s
    else Shaped(s) && Possible(s, ops[0]) && FirstUse(s, ops[0]) && OnceRun(Apply(s, ops[0]), ops[1..], r)
  }

  /** Every run of creations and erasures without self-loops in which each
      unordered pair gets at most one edge, ever, directed or not, keeps all
      structures in agreement; no erasure needs a condition of its own. */
  lemma {:induction false} OnceRunAgrees(s: State, ops: seq<Op>, r: State)
    requires Agree(s) && OncePerPair(s.edges) && |s.edges| + |ops| <= DELETED
    requires OnceRun(s, ops, r)
    ensures Agree(r) && OncePerPair(r.edges) && Run(s, ops, r)
    decreases |ops|
  {
    if ops != [] {
      OnceIsSafe(s, ops[0]);
      SafeIsAllowed(s, ops[0]);
      StepAgrees(s, ops[0]);
      OnceKept(s, ops[0]);
      OnceRunAgrees(Apply(s, ops[0]), ops[1..], r);
    }
  }

  // ---- what one erasure does there

  lemma {:induction false} CutKeepsTail(a: seq<Edge>, e: Edge, k: nat)
    requires k < |a|
    ensures Cut(a + [e], k) == Cut(a, k) + [e]
  {
    assert (a + [e])[..k] == a[..k] && (a + [e])[k + 1..] == a[k + 1..] + [e];
  }

  lemma {:induction false} CutLastOff(a: seq<Edge>, e: Edge)
    ensures Cut(a + [e], |a|) == a
  {}

  lemma {:induction false} ExistingCount(edges: seq<Edge>, n: nat)
    requires n <= |edges|
    ensures |ExistingEdges(edges, n)| == LiveCount(edges, n)
  {
    if n > 0 { ExistingCount(edges, n - 1); }
  }

  lemma {:induction false} ExistingBefore(edges: seq<Edge>, l: nat, n: nat)
    requires n <= l < |edges|
    ensures ExistingEdges(Mark(edges, l), n) == ExistingEdges(edges, n)
  {
    if n > 0 { ExistingBefore(edges, l, n - 1); }
  }

  /** The edge itself: it stands last and goes away again. */
  lemma {:induction false} ExistingAtMark(edges: seq<Edge>, l: nat)
    requires l < |edges| && Live(edges[l])
    ensures LiveCount(edges, l) < |ExistingEdges(edges, l + 1)|
    ensures ExistingEdges(edges, l + 1)[LiveCount(edges, l)] == edges[l]
    ensures ExistingEdges(Mark(edges, l), l + 1) == Cut(ExistingEdges(edges, l + 1), LiveCount(edges, l))
  {
    ExistingCount(edges, l);
    ExistingBefore(edges, l, l);
    CutLastOff(ExistingEdges(edges, l), edges[l]);
    assert !Live(Mark(edges, l)[l]);
  }

  /** Among the existing edges a live edge stands where the live edges before it
      leave it, and marking it takes exactly that place out. */
  lemma {:induction false} ExistingAfterMark(edges: seq<Edge>, l: nat, n: nat)
    requires l < n <= |edges| && Live(edges[l])
    ensures LiveCount(edges, l) < |ExistingEdges(edges, n)|
    ensures ExistingEdges(edges, n)[LiveCount(edges, l)] == edges[l]
    ensures ExistingEdges(Mark(edges, l), n) == Cut(ExistingEdges(edges, n), LiveCount(edges, l))
  {
    if l == n - 1 {
      ExistingAtMark(edges, l);
    } else {
      ExistingAfterMark(edges, l, n - 1);
      CutKeepsTail(ExistingEdges(edges, n - 1), edges[n - 1], LiveCount(edges, l));
    }
  }

  lemma {:induction false} ScanOfOne(edges: seq<Edge>, u: nat, v: nat, n: nat)
    requires n <= |edges|
    requires forall i :: 0 <= i < n ==> !(Live(edges[i]) && Joins(edges[i], u, v))
    ensures Scan(edges, u, v, n) == []
  {
    if n > 0 { ScanOfOne(edges, u, v, n - 1); }
  }

  lemma {:induction false} ScanAfterMark(edges: seq<Edge>, x: nat, y: nat, n: nat, l: nat)
    requires n <= |edges| && l < |edges| && !Joins(edges[l], x, y)
    ensures Scan(Mark(edges, l), x, y, n) == Scan(edges, x, y, n)
  {
    if n > 0 { ScanAfterMark(edges, x, y, n - 1, l); }
  }

  /** What marking the one edge between two nodes does to the queries. */
  ghost predicate TakenOut(before: seq<Edge>, after: seq<Edge>, u: nat, v: nat, e: nat)
    requires e < |before|
  {
    var was := ExistingEdges(before, |before|);
    && LiveCount(before, e) < |was| && was[LiveCount(before, e)] == before[e]
    && ExistingEdges(after, |after|) == Cut(was, LiveCount(before, e))
    && Scan(after, u, v, |after|) == []
    && (forall x, y :: !Joins(before[e], x, y) ==> Scan(after, x, y, |after|) == Scan(before, x, y, |before|))
  }

  lemma {:induction false} MarkTakesOut(edges: seq<Edge>, u: nat, v: nat, e: nat)
    requires OncePerPair(edges) && e < |edges| && Joins(edges[e], u, v) && Live(edges[e])
    ensures TakenOut(edges, Mark(edges, e), u, v, e)
  {
    ExistingAfterMark(edges, e, |edges|);
    OnlyJoin(edges, u, v, e);
    ScanOfOne(Mark(edges, e), u, v, |edges|);
    forall x, y | !Joins(edges[e], x, y) ensures Scan(Mark(edges, e), x, y, |edges|) == Scan(edges, x, y, |edges|) {
      ScanAfterMark(edges, x, y, |edges|, e);
    }
  }

  lemma {:induction false} NoneLeft(edges: seq<Edge>, u: nat, v: nat, e: nat)
    requires OncePerPair(edges) && e < |edges| && Joins(edges[e], u, v)
    ensures u != v && Found(Mark(edges, e), u, v, e)
    ensures forall i :: 0 <= i < |edges| ==> !(Live(Mark(edges, e)[i]) && Joins(Mark(edges, e)[i], u, v))
  {
    OnlyJoin(edges, u, v, e);
  }

  /** Erasing between two nodes takes exactly their edge away: from the existing
      edges, from both adjacency and neighbour lists, and from the lookup by
      endpoints; every other pair keeps its edges.  Doing it again changes
      nothing. */
  lemma {:induction false} EraseTakesExactlyOne(s: State, u: nat, v: nat, e: nat)
    requires Agree(s) && OncePerPair(s.edges) && u < |s.nodes| && v < |s.nodes|
    requires e < |s.edges| && Joins(s.edges[e], u, v) && Live(s.edges[e])
    ensures EraseEdge(s, u, v, e).Some?
    ensures var r := EraseEdge(s, u, v, e).value;
            && Agree(r) && r.edges == Mark(s.edges, e) && TakenOut(s.edges, r.edges, u, v, e)
            && EraseEdge(r, u, v, e) == Some(r)
  {
    var r := EraseEdge(s, u, v, e).value;
    assert Agree(r) by {
      OnceIsSafe(s, Erase(u, v, e));
      EraseSafeIff(s, u, v);
    }
    assert r.edges == Mark(s.edges, e) by { OnceErased(s, u, v, e); }
    MarkTakesOut(s.edges, u, v, e);
    NoneLeft(s.edges, u, v, e);
    EraseNothing(r, u, v, e);
  }

  /** With no live edge between two nodes, erasing changes nothing. */
  lemma {:induction false} EraseNothing(s: State, u: nat, v: nat, e: nat)
    requires Agree(s) && u < |s.nodes| && v < |s.nodes| && u != v && Found(s.edges, u, v, e)
    requires forall i :: 0 <= i < |s.edges| ==> !(Live(s.edges[i]) && Joins(s.edges[i], u, v))
    ensures EraseEdge(s, u, v, e) == Some(s)
  {
    var r := EraseEdge(s, u, v, e).value;
    assert FirstLead(s.edges, s.made, u, v, 0) == |s.edges| && FirstLead(s.edges, s.made, v, u, 0) == |s.edges|;
    assert Agree(r) by { EraseAgreesIff(s, u, v, e); }
    EraseMarks(s, u, v, e);
    SameEdgesSameLists(s, r);
  }

  /** The edges determine the lists. */
  lemma {:induction false} SameEdgesSameLists(s: State, r: State)
    requires Agree(s) && Agree(r) && r.edges == s.edges && r.made == s.made && r.nodes == s.nodes
    ensures r.adj == s.adj && r.neighbours == s.neighbours
  {
    forall u | 0 <= u < |s.nodes| ensures r.adj[u] == s.adj[u] && r.neighbours[u] == s.neighbours[u] {}
  }

  // ---- freshly built views

  /** Node and edge ids of a freshly built view coincide with Memgraph's. */
  ghost predicate Identical(s: State, n: nat) {
    && |s.nodes| == n && !s.transactional
    && (forall i :: i in s.mgToInner <==> 0 <= i < n)
    && (forall i :: i in s.mgToInner ==> s.mgToInner[i] == i)
    && (forall i :: i in s.mgToInnerEdge <==> 0 <= i < |s.edges|)
  }

  ghost predicate HoldsPairs(edges: seq<Edge>, made: seq<Made>, pairs: seq<(nat, nat)>, kind: GraphType) {
    |edges| == |made| == |pairs| &&
    forall i :: 0 <= i < |pairs| ==>
      edges[i] == Edge(i, pairs[i].0, pairs[i].1) && made[i] == Made(kind, None)
  }

  lemma {:induction false} NextPair(s: State, n: nat, from: nat, to: nat, pairs: seq<(nat, nat)>, kind: GraphType)
    requires Agree(s) && Identical(s, n) && |s.edges| < DELETED && HoldsPairs(s.edges, s.made, pairs, kind)
    ensures var r := CreateEdge(s, from, to, None, Made(kind, None));
            Identical(r, n) &&
            HoldsPairs(r.edges, r.made, pairs + if from < n && to < n then [(from, to)] else [], kind)
  {
    assert pairs + [] == pairs;
    var r := CreateEdge(s, from, to, None, Made(kind, None));
    assert EdgeOutcome(s, from, to, None).Created? <==> from < n && to < n;
    if from < n && to < n {
      assert r == AddEdge(s, from, to, |s.edges|, Made(kind, None));
      assert r.edges == s.edges + [Edge(|s.edges|, from, to)] && r.made == s.made + [Made(kind, None)];
    }
  }

  lemma {:induction false} NextNode(s: State, n: nat)
    requires Identical(s, n)
    ensures Identical(CreateNode(s, n).0, n + 1)
    ensures CreateNode(s, n).0.edges == s.edges && CreateNode(s, n).0.made == s.made
  {}

  // ---- a run that ends in disagreement

  lemma {:induction false} RunFirst(s: State, op: Op, ops: seq<Op>, r: State)
    requires Shaped(s) && Possible(s, op) && Allowed(s, op) && Run(Apply(s, op), ops, r)
    ensures Run(s, [op] + ops, r)
  {
    assert ([op] + ops)[1..] == ops;
  }

  lemma {:induction false} NodeStep(s: State, n: nat) returns (t: State)
    requires Agree(s) && Identical(s, n) && |s.edges| < DELETED
    ensures t == Apply(s, NewNode(n)) && Agree(t) && Identical(t, n + 1) && t.edges == s.edges && t.made == s.made
  {
    t := Apply(s, NewNode(n));
    StepAgrees(s, NewNode(n));
    NextNode(s, n);
  }

  lemma {:induction false} EdgeStep(s: State, pairs: seq<(nat, nat)>) returns (t: State)
    requires Agree(s) && Identical(s, 2) && |s.edges| < DELETED && HoldsPairs(s.edges, s.made, pairs, Undirected)
    ensures t == Apply(s, NewEdge(0, 1, None, Made(Undirected, None))) && Agree(t) && Identical(t, 2)
    ensures HoldsPairs(t.edges, t.made, pairs + [(0, 1)], Undirected)
  {
    t := Apply(s, NewEdge(0, 1, None, Made(Undirected, None)));
    StepAgrees(s, NewEdge(0, 1, None, Made(Undirected, None)));
    NextPair(s, 2, 0, 1, pairs, Undirected);
  }

  lemma {:induction false} TwoNodes(s0: State) returns (s1: State, s2: State)
    requires Agree(s0) && Identical(s0, 0) && s0.edges == [] && s0.made == []
    ensures s1 == Apply(s0, NewNode(0)) && Agree(s1) && s2 == Apply(s1, NewNode(1)) && Agree(s2)
    ensures Identical(s2, 2) && s2.edges == [] && s2.made == []
  {
    s1 := NodeStep(s0, 0);
    s2 := NodeStep(s1, 1);
  }

  lemma {:induction false} TwoPairs(edges: seq<Edge>, made: seq<Made>)
    requires HoldsPairs(edges, made, ([] + [(0, 1)]) + [(0, 1)], Undirected)
    ensures edges == [Edge(0, 0, 1), Edge(1, 0, 1)] && made == [Made(Undirected, None), Made(Undirected, None)]
  {}

  lemma {:induction false} TwoEdges(s2: State) returns (s3: State, s4: State)
    requires Agree(s2) && Identical(s2, 2) && HoldsPairs(s2.edges, s2.made, [], Undirected)
    ensures var edge := NewEdge(0, 1, None, Made(Undirected, None));
            s3 == Apply(s2, edge) && Agree(s3) && s4 == Apply(s3, edge) && Agree(s4)
    ensures |s4.nodes| == 2 && s4.edges == [Edge(0, 0, 1), Edge(1, 0, 1)]
    ensures s4.made == [Made(Undirected, None), Made(Undirected, None)]
  {
    s3 := EdgeStep(s2, []);
    s4 := EdgeStep(s3, [] + [(0, 1)]);
    TwoPairs(s4.edges, s4.made);
  }

  /** Two parallel edges, one erasure that finds the older, and one that finds it
      again: the neighbour lists keep the younger edge, which is erased. */
  lemma {:induction false} ParallelEdgesExample() returns (s: State)
    ensures var edge := NewEdge(0, 1, None, Made(Undirected, None));
            Run(Empty(false), [NewNode(0)] + ([NewNode(1)] + ([edge] + ([edge] + ([Erase(0, 1, 0)] + [])))), s)
    ensures Agree(s) && |s.nodes| == 2 && Found(s.edges, 0, 1, 0) && !Agree(EraseEdge(s, 0, 1, 0).value)
  {
    var how := Made(Undirected, None);
    var edge, last := NewEdge(0, 1, None, how), Erase(0, 1, 0);
    EmptyAgrees(false);
    var s1, s2 := TwoNodes(Empty(false));
    var s3, s4 := TwoEdges(s2);
    s := ErasedOnce(s4);
    RunFirst(s4, last, [], s);
    RunFirst(s3, edge, [last] + [], s);
    RunFirst(s2, edge, [edge] + ([last] + []), s);
    RunFirst(s1, NewNode(1), [edge] + ([edge] + ([last] + [])), s);
    RunFirst(Empty(false), NewNode(0), [NewNode(1)] + ([edge] + ([edge] + ([last] + []))), s);
  }

  lemma {:induction false} LeadsOfTwo(older: Edge, younger: Edge, how: Made)
    requires older == Edge(older.id, 0, 1) && younger == Edge(1, 0, 1) && how.kind.Undirected?
    ensures var first := if Live(older) then 0 else 1;
            && FirstLead([older, younger], [how, how], 0, 1, 0) == first
            && FirstLead([older, younger], [how, how], 1, 0, 0) == first
  {
    var edges, made := [older, younger], [how, how];
    assert Leads(edges[1], made[1], 0, Neighbour(1, 1)) && Leads(edges[1], made[1], 1, Neighbour(0, 1));
    assert Leads(edges[0], made[0], 0, Neighbour(1, 0)) <==> Live(older);
    assert Leads(edges[0], made[0], 1, Neighbour(0, 0)) <==> Live(older);
  }

  lemma {:induction false} ErasedOnce(s: State) returns (r: State)
    requires Agree(s) && |s.nodes| == 2 && s.edges == [Edge(0, 0, 1), Edge(1, 0, 1)]
    requires s.made == [Made(Undirected, None), Made(Undirected, None)]
    ensures r == Apply(s, Erase(0, 1, 0)) && Possible(s, Erase(0, 1, 0)) && Allowed(s, Erase(0, 1, 0))
    ensures Agree(r) && |r.nodes| == 2 && Found(r.edges, 0, 1, 0) && !Agree(EraseEdge(r, 0, 1, 0).value)
  {
    LeadsOfTwo(s.edges[0], s.edges[1], s.made[0]);
    assert EraseOk(s, 0, 1, 0);
    r := Apply(s, Erase(0, 1, 0));
    StepAgrees(s, Erase(0, 1, 0));
    EraseMarks(s, 0, 1, 0);
    SecondErasure(s.edges, r);
  }

  lemma {:induction false} SecondErasure(edges: seq<Edge>, r: State)
    requires Agree(r) && |r.nodes| == 2 && edges == [Edge(0, 0, 1), Edge(1, 0, 1)]
    requires r.edges == Mark(Mark(edges, 0), 0) && r.made == [Made(Undirected, None), Made(Undirected, None)]
    ensures Found(r.edges, 0, 1, 0) && !Agree(EraseEdge(r, 0, 1, 0).value)
  {
    assert r.edges == [Edge(DELETED, 0, 1), Edge(1, 0, 1)];
    LeadsOfTwo(r.edges[0], r.edges[1], r.made[0]);
    EraseAgreesIff(r, 0, 1, 0);
  }
}
