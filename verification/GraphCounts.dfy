/** Counting over a whole graph view: degrees, occurrences, and the transposition
    between out- and in-neighbours. */
module GraphCounts {
  import opened GraphView

  /** The sum of `f` over the nodes `0 .. n`. */
  function Total(f: nat -> nat, n: nat): (r: nat) {
    if n == 0 then 0 else Total(f, n - 1) + f(n - 1)
  }

  lemma {:induction false} TotalOfSum(f: nat -> nat, g: nat -> nat, h: nat -> nat, n: nat)
    requires forall u: nat :: u < n ==> f(u) == g(u) + h(u)
    ensures Total(f, n) == Total(g, n) + Total(h, n)
  {
    if n > 0 { TotalOfSum(f, g, h, n - 1); }
  }

  lemma {:induction false} TotalOfOne(f: nat -> nat, n: nat, v: nat)
    requires forall u: nat :: u < n ==> f(u) == if u == v then 1 else 0
    ensures Total(f, n) == if v < n then 1 else 0
  {
    if n > 0 { TotalOfOne(f, n - 1, v); }
  }

  lemma {:induction false} TotalOfZero(f: nat -> nat, n: nat)
    requires forall u: nat :: u < n ==> f(u) == 0
    ensures Total(f, n) == 0
  {
    if n > 0 { TotalOfZero(f, n - 1); }
  }

  /** How often an edge occurs in a neighbour list. */
  function Occurrences(ns: seq<Neighbour>, id: nat): (r: nat) {
    multiset(EdgeIds(ns))[id]
  }

  lemma {:induction false} OccurrencesAppend(a: seq<Neighbour>, b: seq<Neighbour>, id: nat)
    ensures Occurrences(a + b, id) == Occurrences(a, id) + Occurrences(b, id)
  {
    EdgeIdsAppend(a, b);
  }

  /** How many list entries an edge has: one per end it is stored at. */
  function Ends(e: Edge, m: Made): (r: nat) {
    if !Live(e) then 0 else if m.kind.Undirected? then 2 else 1
  }

  function AllEnds(edges: seq<Edge>, made: seq<Made>, n: nat): (r: nat)
    requires n <= |edges| == |made|
  {
    if n == 0 then 0 else AllEnds(edges, made, n - 1) + Ends(edges[n - 1], made[n - 1])
  }

  /** The number of entries one edge has at each node. */
  function OwnDegrees(e: Edge, m: Made, i: nat): (f: nat -> nat) {
    (u: nat) => |EdgeNbrs(e, m, i, u)|
  }

  /** The number of entries of the first `n` edges at each node. */
  function Degrees(edges: seq<Edge>, made: seq<Made>, n: nat): (f: nat -> nat)
    requires n <= |edges| == |made|
  {
    (u: nat) => |Nbrs(edges, made, u, n)|
  }

  lemma {:induction false} EndsOfEdge(e: Edge, m: Made, i: nat, nodes: nat)
    requires e.from < nodes && e.to < nodes
    ensures Total(OwnDegrees(e, m, i), nodes) == Ends(e, m)
  {
    var all := OwnDegrees(e, m, i);
    if !Live(e) {
      TotalOfZero(all, nodes);
    } else {
      var a := (u: nat) => if u == e.from then 1 else 0;
      var b := (u: nat) => if m.kind.Undirected? && u == e.to then 1 else 0;
      TotalOfSum(all, a, b, nodes);
      TotalOfOne(a, nodes, e.from);
      if m.kind.Undirected? { TotalOfOne(b, nodes, e.to); } else { TotalOfZero(b, nodes); }
    }
  }

  lemma {:induction false} DegreesNext(edges: seq<Edge>, made: seq<Made>, n: nat, nodes: nat)
    requires 0 < n <= |edges| == |made|
    ensures Total(Degrees(edges, made, n), nodes) ==
            Total(Degrees(edges, made, n - 1), nodes) + Total(OwnDegrees(edges[n - 1], made[n - 1], n - 1), nodes)
  {
    TotalOfSum(Degrees(edges, made, n), Degrees(edges, made, n - 1), OwnDegrees(edges[n - 1], made[n - 1], n - 1),
      nodes);
  }

  lemma {:induction false} TotalOfDegrees(edges: seq<Edge>, made: seq<Made>, n: nat, nodes: nat)
    requires n <= |edges| == |made|
    requires forall i :: 0 <= i < n ==> edges[i].from < nodes && edges[i].to < nodes
    ensures Total(Degrees(edges, made, n), nodes) == AllEnds(edges, made, n)
  {
    if n == 0 {
      TotalOfZero(Degrees(edges, made, n), nodes);
    } else {
      DegreesNext(edges, made, n, nodes);
      TotalOfDegrees(edges, made, n - 1, nodes);
      EndsOfEdge(edges[n - 1], made[n - 1], n - 1, nodes);
    }
  }

  function LiveCount(edges: seq<Edge>, n: nat): (r: nat)
    requires n <= |edges|
  {
    if n == 0 then 0 else LiveCount(edges, n - 1) + if Live(edges[n - 1]) then 1 else 0
  }

  lemma {:induction false} AllEndsByKind(edges: seq<Edge>, made: seq<Made>, n: nat)
    requires n <= |edges| == |made|
    ensures (forall i :: 0 <= i < n ==> made[i].kind.Undirected?) ==> AllEnds(edges, made, n) == 2 * LiveCount(edges, n)
    ensures (forall i :: 0 <= i < n ==> made[i].kind.Directed?) ==> AllEnds(edges, made, n) == LiveCount(edges, n)
  {
    if n > 0 { AllEndsByKind(edges, made, n - 1); }
  }

  function Degree(s: State, u: nat): (r: nat) {
    if u < |s.adj| then |s.adj[u]| else 0
  }

  /** The degrees of an undirected view add up to twice the number of its live
      edges, those of a directed one to that number. */
  lemma {:induction false} HandshakeLemma(s: State)
    requires Agree(s)
    ensures (forall i :: 0 <= i < |s.made| ==> s.made[i].kind.Undirected?) ==>
              Total((u: nat) => Degree(s, u), |s.nodes|) == 2 * LiveCount(s.edges, |s.edges|)
    ensures (forall i :: 0 <= i < |s.made| ==> s.made[i].kind.Directed?) ==>
              Total((u: nat) => Degree(s, u), |s.nodes|) == LiveCount(s.edges, |s.edges|)
  {
    var f := (u: nat) => Degree(s, u);
    var g := Degrees(s.edges, s.made, |s.edges|);
    var z := (u: nat) => 0;
    TotalOfSum(f, g, z, |s.nodes|);
    TotalOfZero(z, |s.nodes|);
    TotalOfDegrees(s.edges, s.made, |s.edges|, |s.nodes|);
    AllEndsByKind(s.edges, s.made, |s.edges|);
  }

  // ---- each edge, exactly as often as it has ends

  lemma {:induction false} OwnEntries(e: Edge, m: Made, i: nat, u: nat, id: nat)
    ensures Occurrences(EdgeNbrs(e, m, i, u), id) == if i == id then |EdgeNbrs(e, m, i, u)| else 0
  {
    var ns := EdgeNbrs(e, m, i, u);
    if |ns| == 1 { assert EdgeIds(ns) == [i]; }
    if |ns| == 2 { assert EdgeIds(ns) == [i, i]; }
  }

  lemma {:induction false} OccurrencesSum(all: seq<Neighbour>, a: seq<Neighbour>, b: seq<Neighbour>, id: nat)
    requires all == a + b
    ensures Occurrences(all, id) == Occurrences(a, id) + Occurrences(b, id)
  {
    OccurrencesAppend(a, b, id);
  }

  lemma {:induction false} OccurrencesStep(edges: seq<Edge>, made: seq<Made>, u: nat, n: nat, id: nat)
    requires 0 < n <= |edges| == |made|
    ensures Occurrences(Nbrs(edges, made, u, n), id) ==
            Occurrences(Nbrs(edges, made, u, n - 1), id) +
            if n - 1 == id then |EdgeNbrs(edges[id], made[id], id, u)| else 0
  {
    var i := n - 1;
    OwnEntries(edges[i], made[i], i, u, id);
    OccurrencesSum(Nbrs(edges, made, u, n), Nbrs(edges, made, u, i), EdgeNbrs(edges[i], made[i], i, u), id);
  }

  lemma {:induction false} OccurrencesAtNode(edges: seq<Edge>, made: seq<Made>, u: nat, n: nat, id: nat)
    requires n <= |edges| == |made|
    ensures Occurrences(Nbrs(edges, made, u, n), id) ==
            if id < n then |EdgeNbrs(edges[id], made[id], id, u)| else 0
  {
    if n > 0 {
      OccurrencesStep(edges, made, u, n, id);
      OccurrencesAtNode(edges, made, u, n - 1, id);
    }
  }

  /** How often the edge is in the adjacency list of `u`. */
  function Entries(s: State, id: nat, u: nat): (r: nat) {
    if u < |s.adj| then multiset(s.adj[u])[id] else 0
  }

  /** Over all adjacency lists together a live undirected edge occurs twice, a live directed
      one once, and an erased one nowhere. */
  lemma {:induction false} EveryEdgeOncePerEnd(s: State, id: nat)
    requires Agree(s) && id < |s.edges|
    ensures Total((u: nat) => Entries(s, id, u), |s.nodes|) == Ends(s.edges[id], s.made[id])
  {
    var f := (u: nat) => Entries(s, id, u);
    var g := OwnDegrees(s.edges[id], s.made[id], id);
    var z := (u: nat) => 0;
    forall u: nat | u < |s.nodes| ensures f(u) == g(u) + z(u) {
      OccurrencesAtNode(s.edges, s.made, u, |s.edges|, id);
    }
    TotalOfSum(f, g, z, |s.nodes|);
    TotalOfZero(z, |s.nodes|);
    EndsOfEdge(s.edges[id], s.made[id], id, |s.nodes|);
  }

  // ---- in-neighbours are the transpose of out-neighbours

  /** `x` is what the edge `x.edge` puts into the list of `u`. */
  predicate Leads(e: Edge, m: Made, u: nat, x: Neighbour) {
    Live(e) && ((e.from == u && e.to == x.node) || (m.kind.Undirected? && e.to == u && e.from == x.node))
  }

  lemma {:induction false} InOwn(e: Edge, m: Made, i: nat, u: nat, x: Neighbour)
    ensures x in EdgeNbrs(e, m, i, u) <==> x.edge == i && Leads(e, m, u, x)
  {}

  lemma {:induction false} OutMembers(edges: seq<Edge>, made: seq<Made>, u: nat, n: nat, x: Neighbour)
    requires n <= |edges| == |made|
    ensures x in Nbrs(edges, made, u, n) <==> x.edge < n && Leads(edges[x.edge], made[x.edge], u, x)
  {
    if n > 0 {
      OutMembers(edges, made, u, n - 1, x);
      InOwn(edges[n - 1], made[n - 1], n - 1, u, x);
    }
  }

  lemma {:induction false} InMembers(edges: seq<Edge>, made: seq<Made>, u: nat, n: nat, x: Neighbour)
    requires n <= |edges| == |made|
    ensures x in InNbrs(edges, made, u, n) <==>
            x.edge < n && made[x.edge].kind.Directed? && edges[x.edge].to == u && edges[x.edge].from == x.node
  {
    if n > 0 { InMembers(edges, made, u, n - 1, x); }
  }

  /** In a directed view `v` is an out-neighbour of `u` over an edge exactly when
      `u` is an in-neighbour of `v` over it and the edge is not erased. */
  lemma {:induction false} InIsTransposeOfOut(s: State, u: nat, v: nat, id: nat)
    requires Agree(s) && u < |s.nodes| && v < |s.nodes|
    requires forall i :: 0 <= i < |s.made| ==> s.made[i].kind.Directed?
    ensures Neighbour(v, id) in s.neighbours[u] <==> Neighbour(u, id) in s.inNeighbours[v] && IsEdgeValid(s, id)
  {
    OutMembers(s.edges, s.made, u, |s.edges|, Neighbour(v, id));
    InMembers(s.edges, s.made, v, |s.edges|, Neighbour(u, id));
  }

  /** In an undirected view being neighbours is mutual. */
  lemma {:induction false} UndirectedIsSymmetric(s: State, u: nat, v: nat, id: nat)
    requires Agree(s) && u < |s.nodes| && v < |s.nodes|
    requires forall i :: 0 <= i < |s.made| ==> s.made[i].kind.Undirected?
    ensures Neighbour(v, id) in s.neighbours[u] <==> Neighbour(u, id) in s.neighbours[v]
  {
    OutMembers(s.edges, s.made, u, |s.edges|, Neighbour(v, id));
    OutMembers(s.edges, s.made, v, |s.edges|, Neighbour(u, id));
  }
}
