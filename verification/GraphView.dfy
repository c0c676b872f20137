/** The in-memory graph view (`mg_graph::Graph`) as a state: the same edges kept
    in an edge vector, adjacency lists, out- and in-neighbour lists, a weight
    vector, two pairs of id maps and a multimap by endpoints.  `Agree` says what
    each of them must hold, in terms of the edges alone. */
module GraphView {
  import opened Options

  datatype GraphType = Directed | Undirected

  datatype Edge = Edge(id: nat, from: nat, to: nat)

  datatype Neighbour = Neighbour(node: nat, edge: nat)

  /** How an edge was created.  The source does not store this; the invariant
      needs it, since type and weight are chosen call by call. */
  datatype Made = Made(kind: GraphType, weight: Option<real>)

  /** The mark of erased edges: the largest 64-bit id. */
  const DELETED: nat := 0xFFFF_FFFF_FFFF_FFFF

  datatype State = State(
    nodes: seq<nat>,
    edges: seq<Edge>,
    adj: seq<seq<nat>>,
    neighbours: seq<seq<Neighbour>>,
    inNeighbours: seq<seq<Neighbour>>,
    weights: seq<real>,
    innerToMg: map<nat, nat>,
    mgToInner: map<nat, nat>,
    innerToMgEdge: map<nat, nat>,
    mgToInnerEdge: map<nat, nat>,
    nodesToEdge: seq<((nat, nat), nat)>,
    transactional: bool,
    made: seq<Made>)

  function Empty(transactional: bool): (s: State) {
    State([], [], [], [], [], [], map[], map[], map[], map[], [], transactional, [])
  }

  function MinMax(a: nat, b: nat): (r: (nat, nat)) {
    if a <= b then (a, b) else (b, a)
  }

  // ---- creating

  function CreateNode(s: State, mgId: nat): (r: (State, Option<nat>)) {
    if mgId in s.mgToInner then (s, None)
    else
      var id := |s.nodes|;
      (s.(nodes := s.nodes + [id], adj := s.adj + [[]], neighbours := s.neighbours + [[]],
          inNeighbours := s.inNeighbours + [[]],
          innerToMg := s.innerToMg[id := mgId], mgToInner := s.mgToInner[mgId := id]), Some(id))
  }

  /** `Invalid` is the exception a transactional view throws for an endpoint it
      does not hold. */
  datatype Outcome = Created(id: nat) | Refused | Invalid

  function EdgeOutcome(s: State, mgFrom: nat, mgTo: nat, mgEdge: Option<nat>): (r: Outcome) {
    var key := if mgEdge.None? then |s.edges| else mgEdge.value;
    if key in s.mgToInnerEdge then Refused
    else if mgFrom in s.mgToInner && mgTo in s.mgToInner then Created(|s.edges|)
    else if s.transactional then Invalid
    else Refused
  }

  function Push<T>(lists: seq<seq<T>>, u: nat, x: T): (r: seq<seq<T>>)
    requires u < |lists|
  {
    lists[u := lists[u] + [x]]
  }

  function AddEdge(s: State, from: nat, to: nat, key: nat, m: Made): (r: State)
    requires from < |s.adj| == |s.neighbours| == |s.inNeighbours| && to < |s.adj|
  {
    var id := |s.edges|;
    var both := m.kind.Undirected?;
    var adj := Push(s.adj, from, id);
    var nbr := Push(s.neighbours, from, Neighbour(to, id));
    s.(edges := s.edges + [Edge(id, from, to)],
       adj := if both then Push(adj, to, id) else adj,
       neighbours := if both then Push(nbr, to, Neighbour(from, id)) else nbr,
       inNeighbours := if both then s.inNeighbours else Push(s.inNeighbours, to, Neighbour(from, id)),
       weights := if m.weight.Some? then s.weights + [m.weight.value] else s.weights,
       innerToMgEdge := s.innerToMgEdge[id := key],
       mgToInnerEdge := s.mgToInnerEdge[key := id],
       nodesToEdge := s.nodesToEdge + [(MinMax(from, to), id)],
       made := s.made + [m])
  }

  function CreateEdge(s: State, mgFrom: nat, mgTo: nat, mgEdge: Option<nat>, m: Made): (r: State)
    requires Shaped(s)
  {
    if EdgeOutcome(s, mgFrom, mgTo, mgEdge).Created? then
      AddEdge(s, s.mgToInner[mgFrom], s.mgToInner[mgTo], if mgEdge.None? then |s.edges| else mgEdge.value, m)
    else s
  }

  // ---- what every structure must hold

  predicate Live(e: Edge) { e.id != DELETED }

  /** What one edge contributes to the neighbour list of `u`. */
  function EdgeNbrs(e: Edge, m: Made, i: nat, u: nat): (r: seq<Neighbour>) {
    if !Live(e) then []
    else
      (if e.from == u then [Neighbour(e.to, i)] else []) +
      (if m.kind.Undirected? && e.to == u then [Neighbour(e.from, i)] else [])
  }

  /** The live edges at `u` among the first `n`, in order of creation. */
  function Nbrs(edges: seq<Edge>, made: seq<Made>, u: nat, n: nat): (r: seq<Neighbour>)
    requires n <= |edges| == |made|
  {
    if n == 0 then [] else Nbrs(edges, made, u, n - 1) + EdgeNbrs(edges[n - 1], made[n - 1], n - 1, u)
  }

  /** The directed edges into `u`; erasing an edge does not touch these. */
  function InNbrs(edges: seq<Edge>, made: seq<Made>, u: nat, n: nat): (r: seq<Neighbour>)
    requires n <= |edges| == |made|
  {
    if n == 0 then []
    else
      InNbrs(edges, made, u, n - 1) +
      if made[n - 1].kind.Directed? && edges[n - 1].to == u then [Neighbour(edges[n - 1].from, n - 1)] else []
  }

  function EdgeIds(ns: seq<Neighbour>): (r: seq<nat>)
    ensures |r| == |ns| && forall i :: 0 <= i < |ns| ==> r[i] == ns[i].edge
  {
    seq(|ns|, i requires 0 <= i < |ns| => ns[i].edge)
  }

  function Weights(made: seq<Made>): (r: seq<real>) {
    if made == [] then []
    else
      var n := |made| - 1;
      Weights(made[..n]) + if made[n].weight.Some? then [made[n].weight.value] else []
  }

  /** Two maps between the inner ids `0 .. n` and Memgraph's are inverse. */
  ghost predicate Inverse(inner: map<nat, nat>, outer: map<nat, nat>, n: nat) {
    && (forall i :: 0 <= i < n <==> i in inner)
    && (forall i :: i in inner ==> inner[i] in outer && outer[inner[i]] == i)
    && (forall m :: m in outer ==> outer[m] in inner && inner[outer[m]] == m)
  }

  ghost predicate EdgesOk(s: State) {
    |s.edges| == |s.made| &&
    forall i :: 0 <= i < |s.edges| ==>
      s.edges[i].from < |s.nodes| && s.edges[i].to < |s.nodes| && (Live(s.edges[i]) ==> s.edges[i].id == i)
  }

  ghost predicate Shaped(s: State) {
    && |s.adj| == |s.neighbours| == |s.inNeighbours| == |s.nodes|
    && (forall i :: 0 <= i < |s.nodes| ==> s.nodes[i] == i)
    && Inverse(s.innerToMg, s.mgToInner, |s.nodes|)
    && Inverse(s.innerToMgEdge, s.mgToInnerEdge, |s.edges|)
    && EdgesOk(s)
  }

  ghost predicate MultimapOk(s: State) {
    |s.nodesToEdge| == |s.edges| &&
    forall i :: 0 <= i < |s.edges| ==> s.nodesToEdge[i] == (MinMax(s.edges[i].from, s.edges[i].to), i)
  }

  ghost predicate AdjOk(s: State) {
    EdgesOk(s) && |s.adj| == |s.nodes| &&
    forall u :: 0 <= u < |s.nodes| ==> s.adj[u] == EdgeIds(Nbrs(s.edges, s.made, u, |s.edges|))
  }

  ghost predicate NbrsOk(s: State) {
    EdgesOk(s) && |s.neighbours| == |s.nodes| &&
    forall u :: 0 <= u < |s.nodes| ==> s.neighbours[u] == Nbrs(s.edges, s.made, u, |s.edges|)
  }

  ghost predicate InNbrsOk(s: State) {
    EdgesOk(s) && |s.inNeighbours| == |s.nodes| &&
    forall u :: 0 <= u < |s.nodes| ==> s.inNeighbours[u] == InNbrs(s.edges, s.made, u, |s.edges|)
  }

  /** All but the neighbour lists agree with the edges. */
  ghost predicate AgreeButNbrs(s: State) {
    Shaped(s) && MultimapOk(s) && AdjOk(s) && InNbrsOk(s) && s.weights == Weights(s.made)
  }

  ghost predicate Agree(s: State) {
    AgreeButNbrs(s) && NbrsOk(s)
  }

  // ---- every creation keeps the agreement

  lemma {:induction false} EmptyAgrees(transactional: bool)
    ensures Agree(Empty(transactional))
  {}

  lemma {:induction false} NbrsOfPrefix(edges: seq<Edge>, made: seq<Made>, e: Edge, m: Made, u: nat, n: nat)
    requires n <= |edges| == |made|
    ensures Nbrs(edges + [e], made + [m], u, n) == Nbrs(edges, made, u, n)
    ensures InNbrs(edges + [e], made + [m], u, n) == InNbrs(edges, made, u, n)
  {
    if n > 0 { NbrsOfPrefix(edges, made, e, m, u, n - 1); }
  }

  lemma {:induction false} NbrsOutside(edges: seq<Edge>, made: seq<Made>, u: nat, n: nat)
    requires n <= |edges| == |made|
    requires forall i :: 0 <= i < n ==> edges[i].from != u && edges[i].to != u
    ensures Nbrs(edges, made, u, n) == [] && InNbrs(edges, made, u, n) == []
  {
    if n > 0 {
      NbrsOutside(edges, made, u, n - 1);
      assert EdgeNbrs(edges[n - 1], made[n - 1], n - 1, u) == [];
    }
  }

  lemma {:induction false} CreateNodeKeeps(s: State, mgId: nat)
    requires Agree(s)
    ensures Agree(CreateNode(s, mgId).0)
  {
    var r := CreateNode(s, mgId).0;
    if mgId !in s.mgToInner {
      InverseGrows(s.innerToMg, s.mgToInner, |s.nodes|, mgId);
      NbrsOutside(s.edges, s.made, |s.nodes|, |s.edges|);
      assert Shaped(r);
      forall u | 0 <= u < |r.nodes|
        ensures r.neighbours[u] == Nbrs(r.edges, r.made, u, |r.edges|)
        ensures r.adj[u] == EdgeIds(Nbrs(r.edges, r.made, u, |r.edges|))
        ensures r.inNeighbours[u] == InNbrs(r.edges, r.made, u, |r.edges|)
      {
        if u < |s.nodes| { assert r.adj[u] == s.adj[u]; }
      }
    }
  }

  lemma {:induction false} InverseGrows(inner: map<nat, nat>, outer: map<nat, nat>, n: nat, m: nat)
    requires Inverse(inner, outer, n) && m !in outer
    ensures Inverse(inner[n := m], outer[m := n], n + 1)
  {}

  lemma {:induction false} EdgeIdsAppend(a: seq<Neighbour>, b: seq<Neighbour>)
    ensures EdgeIds(a + b) == EdgeIds(a) + EdgeIds(b)
  {}

  /** One more edge: the lists of its endpoints grow by its contribution. */
  lemma {:induction false} ListsGrow(s: State, e: Edge, m: Made, u: nat)
    requires Agree(s) && u < |s.nodes| && Live(e)
    ensures var all := Nbrs(s.edges + [e], s.made + [m], u, |s.edges| + 1);
            all == s.neighbours[u] + EdgeNbrs(e, m, |s.edges|, u) &&
            EdgeIds(all) == s.adj[u] + EdgeIds(EdgeNbrs(e, m, |s.edges|, u))
    ensures InNbrs(s.edges + [e], s.made + [m], u, |s.edges| + 1) ==
            s.inNeighbours[u] + if m.kind.Directed? && e.to == u then [Neighbour(e.from, |s.edges|)] else []
  {
    NbrsOfPrefix(s.edges, s.made, e, m, u, |s.edges|);
    EdgeIdsAppend(s.neighbours[u], EdgeNbrs(e, m, |s.edges|, u));
  }

  /** The pushes of one creation add exactly the new edge's contribution. */
  lemma {:induction false} PushedNbrs(lists: seq<seq<Neighbour>>, e: Edge, m: Made, u: nat)
    requires e.from < |lists| && e.to < |lists| && u < |lists| && Live(e)
    ensures var first := Push(lists, e.from, Neighbour(e.to, e.id));
            (if m.kind.Undirected? then Push(first, e.to, Neighbour(e.from, e.id)) else first)[u] ==
            lists[u] + EdgeNbrs(e, m, e.id, u)
  {}

  lemma {:induction false} PushedIds(lists: seq<seq<nat>>, e: Edge, m: Made, u: nat)
    requires e.from < |lists| && e.to < |lists| && u < |lists| && Live(e)
    ensures var first := Push(lists, e.from, e.id);
            (if m.kind.Undirected? then Push(first, e.to, e.id) else first)[u] ==
            lists[u] + EdgeIds(EdgeNbrs(e, m, e.id, u))
  {}

  lemma {:induction false} PushedIn(lists: seq<seq<Neighbour>>, e: Edge, m: Made, u: nat)
    requires e.to < |lists| && u < |lists|
    ensures (if m.kind.Undirected? then lists else Push(lists, e.to, Neighbour(e.from, e.id)))[u] ==
            lists[u] + if m.kind.Directed? && e.to == u then [Neighbour(e.from, e.id)] else []
  {}

  lemma {:induction false} AddEdgeLists(s: State, from: nat, to: nat, key: nat, m: Made, u: nat)
    requires Agree(s) && from < |s.nodes| && to < |s.nodes| && u < |s.nodes| && |s.edges| < DELETED
    ensures var r := AddEdge(s, from, to, key, m);
            && r.neighbours[u] == Nbrs(r.edges, r.made, u, |r.edges|)
            && r.adj[u] == EdgeIds(Nbrs(r.edges, r.made, u, |r.edges|))
            && r.inNeighbours[u] == InNbrs(r.edges, r.made, u, |r.edges|)
  {
    var e := Edge(|s.edges|, from, to);
    ListsGrow(s, e, m, u);
    PushedNbrs(s.neighbours, e, m, u);
    PushedIds(s.adj, e, m, u);
    PushedIn(s.inNeighbours, e, m, u);
  }

  /** All that is not a list per node. */
  lemma {:induction false} AddEdgeShaped(s: State, from: nat, to: nat, key: nat, m: Made)
    requires Shaped(s) && MultimapOk(s) && s.weights == Weights(s.made)
    requires from < |s.nodes| && to < |s.nodes| && |s.edges| < DELETED && key !in s.mgToInnerEdge
    ensures var r := AddEdge(s, from, to, key, m); Shaped(r) && MultimapOk(r) && r.weights == Weights(r.made)
  {
    var r := AddEdge(s, from, to, key, m);
    InverseGrows(s.innerToMgEdge, s.mgToInnerEdge, |s.edges|, key);
    assert r.made[..|s.made|] == s.made;
    assert s.weights + [] == s.weights;
  }

  lemma {:induction false} AddEdgeKeeps(s: State, from: nat, to: nat, key: nat, m: Made)
    requires Agree(s) && from < |s.nodes| && to < |s.nodes| && |s.edges| < DELETED && key !in s.mgToInnerEdge
    ensures Agree(AddEdge(s, from, to, key, m))
  {
    var r := AddEdge(s, from, to, key, m);
    AddEdgeShaped(s, from, to, key, m);
    forall u | 0 <= u < |s.nodes|
      ensures r.neighbours[u] == Nbrs(r.edges, r.made, u, |r.edges|)
      ensures r.adj[u] == EdgeIds(Nbrs(r.edges, r.made, u, |r.edges|))
      ensures r.inNeighbours[u] == InNbrs(r.edges, r.made, u, |r.edges|)
    {
      AddEdgeLists(s, from, to, key, m, u);
    }
  }

  lemma {:induction false} CreateEdgeKeeps(s: State, mgFrom: nat, mgTo: nat, mgEdge: Option<nat>, m: Made)
    requires Agree(s) && |s.edges| < DELETED
    ensures Agree(CreateEdge(s, mgFrom, mgTo, mgEdge, m))
  {
    if EdgeOutcome(s, mgFrom, mgTo, mgEdge).Created? {
      AddEdgeKeeps(s, s.mgToInner[mgFrom], s.mgToInner[mgTo], if mgEdge.None? then |s.edges| else mgEdge.value, m);
    }
  }

  // ---- what a creation does, in Memgraph's ids

  predicate IsNode(s: State, mgId: nat) {
    exists i :: 0 <= i < |s.nodes| && i in s.innerToMg && s.innerToMg[i] == mgId
  }

  predicate IsEdge(s: State, mgEdge: nat) {
    exists i :: 0 <= i < |s.edges| && i in s.innerToMgEdge && s.innerToMgEdge[i] == mgEdge
  }

  lemma {:induction false} KnownIds(s: State, mgId: nat)
    requires Shaped(s)
    ensures IsNode(s, mgId) <==> mgId in s.mgToInner
    ensures IsEdge(s, mgId) <==> mgId in s.mgToInnerEdge
  {
    if mgId in s.mgToInner { assert s.innerToMg[s.mgToInner[mgId]] == mgId; }
    if mgId in s.mgToInnerEdge { assert s.innerToMgEdge[s.mgToInnerEdge[mgId]] == mgId; }
  }

  /** A node is created exactly if its id is new.  It comes last, stands for that
      id and has no neighbours; nothing else changes. */
  lemma {:induction false} CreateNodeEffect(s: State, mgId: nat)
    requires Shaped(s)
    ensures var (r, id) := CreateNode(s, mgId);
            && (id.None? <==> IsNode(s, mgId)) && (id.None? ==> r == s)
            && (id.Some? ==>
                  && id.value == |s.nodes| && |r.nodes| == |s.nodes| + 1 && r.innerToMg == s.innerToMg[id.value := mgId]
                  && r.edges == s.edges && r.innerToMgEdge == s.innerToMgEdge && r.weights == s.weights
                  && r.neighbours == s.neighbours + [[]] && r.inNeighbours == s.inNeighbours + [[]] &&
                     r.adj == s.adj + [[]])
  {
    KnownIds(s, mgId);
  }

  /** Who sees edge `id`: its first node, and its second if it is undirected. */
  predicate Sees(id: nat, from: nat, to: nat, kind: GraphType, u: nat, x: Neighbour) {
    x.edge == id && ((u == from && x.node == to) || (kind.Undirected? && u == to && x.node == from))
  }

  /** Who lists it as coming in: its second node, if it is directed. */
  predicate Enters(id: nat, from: nat, to: nat, kind: GraphType, u: nat, x: Neighbour) {
    kind.Directed? && u == to && x == Neighbour(from, id)
  }

  lemma {:induction false} PushAt<T>(lists: seq<seq<T>>, u: nat, x: T, v: nat)
    requires u < |lists| && v < |lists|
    ensures |Push(lists, u, x)| == |lists| && Push(lists, u, x)[v] == lists[v] + if v == u then [x] else []
  {
    assert lists[v] + [] == lists[v];
  }

  lemma {:induction false} AddEdgeSeen(s: State, from: nat, to: nat, key: nat, m: Made, u: nat, x: Neighbour)
    requires from < |s.adj| == |s.neighbours| == |s.inNeighbours| && to < |s.adj| && u < |s.adj|
    ensures var r := AddEdge(s, from, to, key, m);
            && (x in r.neighbours[u] <==> x in s.neighbours[u] || Sees(|s.edges|, from, to, m.kind, u, x))
            && (x in r.inNeighbours[u] <==> x in s.inNeighbours[u] || Enters(|s.edges|, from, to, m.kind, u, x))
  {
    var id := |s.edges|;
    PushAt(s.neighbours, from, Neighbour(to, id), u);
    PushAt(Push(s.neighbours, from, Neighbour(to, id)), to, Neighbour(from, id), u);
    PushAt(s.inNeighbours, to, Neighbour(from, id), u);
  }

  /** The new edge `e`, in terms of the call. */
  ghost predicate HasNewEdge(s: State, r: State, mgFrom: nat, mgTo: nat, mgEdge: Option<nat>, m: Made, e: Edge)
    requires Shaped(s) && Shaped(r) && |r.nodes| == |s.nodes|
  {
    && e.id == |s.edges| && e.from < |s.nodes| && e.to < |s.nodes| && r.edges == s.edges + [e]
    && r.innerToMg == s.innerToMg && r.innerToMg[e.from] == mgFrom && r.innerToMg[e.to] == mgTo
    && r.innerToMgEdge == s.innerToMgEdge[e.id := if mgEdge.Some? then mgEdge.value else |s.edges|]
    && r.made == s.made + [m] && r.weights == s.weights + (if m.weight.Some? then [m.weight.value] else [])
    && (forall u, x :: 0 <= u < |s.nodes| ==>
          (x in r.neighbours[u] <==> x in s.neighbours[u] || Sees(e.id, e.from, e.to, m.kind, u, x)))
    && (forall u, x :: 0 <= u < |s.nodes| ==>
          (x in r.inNeighbours[u] <==> x in s.inNeighbours[u] || Enters(e.id, e.from, e.to, m.kind, u, x)))
  }

  /** An edge is created exactly if both ends are nodes and its id is new: one edge
      from the node that stands for the first id to the one that stands for the
      second, under the id given, or else the number of edges.  Every earlier
      edge, node and id stays; otherwise nothing changes. */
  lemma {:induction false} CreateEdgeEffect(s: State, mgFrom: nat, mgTo: nat, mgEdge: Option<nat>, m: Made)
    requires Agree(s) && |s.edges| < DELETED
    ensures var r, out := CreateEdge(s, mgFrom, mgTo, mgEdge, m), EdgeOutcome(s, mgFrom, mgTo, mgEdge);
            var key := if mgEdge.Some? then mgEdge.value else |s.edges|;
            && (out.Created? <==> IsNode(s, mgFrom) && IsNode(s, mgTo) && !IsEdge(s, key))
            && (out.Invalid? <==> !IsEdge(s, key) && !(IsNode(s, mgFrom) && IsNode(s, mgTo)) && s.transactional)
            && (!out.Created? ==> r == s)
            && (out.Created? ==>
                  && out.id == |s.edges| && Shaped(r) && r.nodes == s.nodes && |r.edges| == |s.edges| + 1
                  && HasNewEdge(s, r, mgFrom, mgTo, mgEdge, m, r.edges[|s.edges|]))
  {
    KnownIds(s, mgFrom);
    KnownIds(s, mgTo);
    KnownIds(s, if mgEdge.Some? then mgEdge.value else |s.edges|);
    if EdgeOutcome(s, mgFrom, mgTo, mgEdge).Created? {
      CreateEdgeKeeps(s, mgFrom, mgTo, mgEdge, m);
      AddedIsCreated(s, mgFrom, mgTo, mgEdge, m);
    }
  }

  lemma {:induction false} AddedIsCreated(s: State, mgFrom: nat, mgTo: nat, mgEdge: Option<nat>, m: Made)
    requires Agree(s) && |s.edges| < DELETED && EdgeOutcome(s, mgFrom, mgTo, mgEdge).Created?
    requires Shaped(CreateEdge(s, mgFrom, mgTo, mgEdge, m))
    ensures var r := CreateEdge(s, mgFrom, mgTo, mgEdge, m);
            r.nodes == s.nodes && |r.edges| == |s.edges| + 1 &&
            HasNewEdge(s, r, mgFrom, mgTo, mgEdge, m, r.edges[|s.edges|])
  {
    var key := if mgEdge.None? then |s.edges| else mgEdge.value;
    var from, to := s.mgToInner[mgFrom], s.mgToInner[mgTo];
    var r := CreateEdge(s, mgFrom, mgTo, mgEdge, m);
    assert s.weights + [] == s.weights;
    assert r == AddEdge(s, from, to, key, m);
    forall u, x | 0 <= u < |s.nodes|
      ensures x in r.neighbours[u] <==> x in s.neighbours[u] || Sees(|s.edges|, from, to, m.kind, u, x)
      ensures x in r.inNeighbours[u] <==> x in s.inNeighbours[u] || Enters(|s.edges|, from, to, m.kind, u, x)
    {
      AddEdgeSeen(s, from, to, key, m, u, x);
    }
  }

  // ---- queries

  /** The live ones among the first `n` edges. */
  function ExistingEdges(edges: seq<Edge>, n: nat): (r: seq<Edge>)
    requires n <= |edges|
  {
    if n == 0 then []
    else if Live(edges[n - 1]) then ExistingEdges(edges, n - 1) + [edges[n - 1]]
    else ExistingEdges(edges, n - 1)
  }

  /** The live edges, each once, in order of creation. */
  lemma {:induction false} ExistingMeans(s: State, n: nat)
    requires EdgesOk(s) && n <= |s.edges|
    ensures var r := ExistingEdges(s.edges, n);
            && (forall e :: e in r <==> exists i :: 0 <= i < n && s.edges[i] == e && Live(e))
            && (forall a, b :: 0 <= a < b < |r| ==> r[a].id < r[b].id)
  {
    if n > 0 {
      var front := ExistingEdges(s.edges, n - 1);
      ExistingMeans(s, n - 1);
      forall a | 0 <= a < |front| ensures front[a].id < n - 1 { assert front[a] in front; }
    }
  }

  predicate IsEdgeValid(s: State, id: nat) {
    id < |s.edges| && Live(s.edges[id])
  }

  /** The valid ids among the multimap entries under the pair, in order. */
  function EdgesBetween(s: State, u: nat, v: nat, n: nat): (r: seq<nat>)
    requires n <= |s.nodesToEdge|
  {
    if n == 0 then []
    else
      var (key, id) := s.nodesToEdge[n - 1];
      if key == MinMax(u, v) && IsEdgeValid(s, id) then EdgesBetween(s, u, v, n - 1) + [id]
      else EdgesBetween(s, u, v, n - 1)
  }

  predicate Joins(e: Edge, u: nat, v: nat) {
    (e.from == u && e.to == v) || (e.from == v && e.to == u)
  }

  /** The plain scan of the edge vector. */
  function Scan(edges: seq<Edge>, u: nat, v: nat, n: nat): (r: seq<nat>)
    requires n <= |edges|
  {
    if n == 0 then []
    else if Live(edges[n - 1]) && Joins(edges[n - 1], u, v) then Scan(edges, u, v, n - 1) + [n - 1]
    else Scan(edges, u, v, n - 1)
  }

  /** The ids of the live edges between two nodes, increasing. */
  lemma {:induction false} ScanMeans(edges: seq<Edge>, u: nat, v: nat, n: nat)
    requires n <= |edges|
    ensures var r := Scan(edges, u, v, n);
            && (forall i :: i in r <==>
                  && 0 <= i < n && edges[i].id != DELETED
                  && ((edges[i].from == u && edges[i].to == v) || (edges[i].from == v && edges[i].to == u)))
            && (forall a, b :: 0 <= a < b < |r| ==> r[a] < r[b])
  {
    if n > 0 {
      var front := Scan(edges, u, v, n - 1);
      ScanMeans(edges, u, v, n - 1);
      forall a | 0 <= a < |front| ensures front[a] < n - 1 { assert front[a] in front; }
    }
  }

  /** The lookup by endpoints finds exactly the live edges between the two nodes,
      in order of creation and in either direction. */
  lemma {:induction false} BetweenIsScan(s: State, u: nat, v: nat, n: nat)
    requires AgreeButNbrs(s) && n <= |s.edges|
    ensures EdgesBetween(s, u, v, n) == Scan(s.edges, u, v, n) == Scan(s.edges, v, u, n)
  {
    if n > 0 {
      BetweenIsScan(s, u, v, n - 1);
      assert s.nodesToEdge[n - 1] == (MinMax(s.edges[n - 1].from, s.edges[n - 1].to), n - 1);
    }
  }

  /** Looking an edge's weight up by its id gives the weight it was created with,
      for every edge, exactly when every edge was created with one. */
  lemma {:induction false} WeightsLineUpIff(s: State)
    requires Agree(s)
    ensures (forall i :: 0 <= i < |s.edges| ==> i < |s.weights| && s.made[i].weight == Some(s.weights[i]))
            <==> forall i :: 0 <= i < |s.made| ==> s.made[i].weight.Some?
  {
    if forall i :: 0 <= i < |s.made| ==> s.made[i].weight.Some? { AllWeighted(s.made); }
  }

  lemma {:induction false} AllWeighted(made: seq<Made>)
    requires forall i :: 0 <= i < |made| ==> made[i].weight.Some?
    ensures |Weights(made)| == |made| && forall i :: 0 <= i < |made| ==> made[i].weight == Some(Weights(made)[i])
  {
    if made != [] { AllWeighted(made[..|made| - 1]); }
  }
}
