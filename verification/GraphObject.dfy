/** The graph view as the object it is: each method updates the fields in place
    and is proved to carry the state to the one the specification gives. */
module GraphObject {
  import opened Options
  import opened GraphView
  import opened GraphCounts
  import opened GraphErase

  class Graph {
    var nodes: seq<nat>
    var edges: seq<Edge>
    var adj: seq<seq<nat>>
    var neighbours: seq<seq<Neighbour>>
    var inNeighbours: seq<seq<Neighbour>>
    var weights: seq<real>
    var innerToMg: map<nat, nat>
    var mgToInner: map<nat, nat>
    var innerToMgEdge: map<nat, nat>
    var mgToInnerEdge: map<nat, nat>
    var nodesToEdge: seq<((nat, nat), nat)>
    var transactional: bool
    ghost var made: seq<Made>

    ghost function Snapshot(): (s: State)
      reads this
    {
      State(nodes, edges, adj, neighbours, inNeighbours, weights, innerToMg, mgToInner,
            innerToMgEdge, mgToInnerEdge, nodesToEdge, transactional, made)
    }

    constructor (isTransactional: bool)
      ensures Snapshot() == Empty(isTransactional) && Agree(Snapshot())
    {
      nodes, edges, adj, neighbours, inNeighbours := [], [], [], [], [];
      weights, nodesToEdge, made := [], [], [];
      innerToMg, mgToInner, innerToMgEdge, mgToInnerEdge := map[], map[], map[], map[];
      transactional := isTransactional;
      new;
      EmptyAgrees(isTransactional);
    }

    /** Room for one more node. */
    method GrowLists(id: nat)
      modifies this`nodes, this`adj, this`neighbours, this`inNeighbours
      ensures nodes == old(nodes) + [id] && adj == old(adj) + [[]]
      ensures neighbours == old(neighbours) + [[]] && inNeighbours == old(inNeighbours) + [[]]
    {
      nodes := nodes + [id];
      adj := adj + [[]];
      neighbours := neighbours + [[]];
      inNeighbours := inNeighbours + [[]];
    }

    method CreateNode(mgId: nat) returns (r: Option<nat>)
      requires Agree(Snapshot())
      modifies this
      ensures Agree(Snapshot())
      ensures (Snapshot(), r) == GraphView.CreateNode(old(Snapshot()), mgId)
    {
      CreateNodeKeeps(Snapshot(), mgId);
      if mgId in mgToInner { return None; }
      var id := |nodes|;
      GrowLists(id);
      innerToMg := innerToMg[id := mgId];
      mgToInner := mgToInner[mgId := id];
      r := Some(id);
    }

    /** `GetInnerNodeIdOpt`: the inner node that stands for a Memgraph id, if any;
        a transactional view throws if there is none. */
    method InnerNodeId(mgId: nat) returns (id: Option<nat>, thrown: bool)
      requires Inverse(innerToMg, mgToInner, |nodes|)
      ensures id.Some? ==> id.value < |nodes| && innerToMg[id.value] == mgId
      ensures id.None? ==> forall i :: 0 <= i < |nodes| ==> innerToMg[i] != mgId
      ensures thrown <==> id.None? && transactional
    {
      if mgId in mgToInner { return Some(mgToInner[mgId]), false; }
      return None, transactional;
    }

    /** The list entries of a new edge. */
    method Attach(from: nat, to: nat, id: nat, kind: GraphType)
      requires from < |adj| == |neighbours| == |inNeighbours| && to < |adj|
      modifies this`adj, this`neighbours, this`inNeighbours
      ensures adj == var a := Push(old(adj), from, id); if kind.Undirected? then Push(a, to, id) else a
      ensures neighbours == var n := Push(old(neighbours), from, Neighbour(to, id));
                            if kind.Undirected? then Push(n, to, Neighbour(from, id)) else n
      ensures inNeighbours ==
              if kind.Undirected? then old(inNeighbours) else Push(old(inNeighbours), to, Neighbour(from, id))
    {
      adj := Push(adj, from, id);
      neighbours := Push(neighbours, from, Neighbour(to, id));
      if kind.Undirected? {
        adj := Push(adj, to, id);
        neighbours := Push(neighbours, to, Neighbour(from, id));
      } else {
        inNeighbours := Push(inNeighbours, to, Neighbour(from, id));
      }
    }

    /** The vector and id-map entries of a new edge. */
    method Record(from: nat, to: nat, key: nat, kind: GraphType, weighted: bool, weight: real)
      modifies this`innerToMgEdge, this`mgToInnerEdge, this`edges, this`nodesToEdge, this`weights, this`made
      ensures innerToMgEdge == old(innerToMgEdge)[|old(edges)| := key]
      ensures mgToInnerEdge == old(mgToInnerEdge)[key := |old(edges)|]
      ensures edges == old(edges) + [Edge(|old(edges)|, from, to)]
      ensures nodesToEdge == old(nodesToEdge) + [(MinMax(from, to), |old(edges)|)]
      ensures weights == if weighted then old(weights) + [weight] else old(weights)
      ensures made == old(made) + [Made(kind, if weighted then Some(weight) else None)]
    {
      var id := |edges|;
      innerToMgEdge := innerToMgEdge[id := key];
      mgToInnerEdge := mgToInnerEdge[key := id];
      edges := edges + [Edge(id, from, to)];
      nodesToEdge := nodesToEdge + [(MinMax(from, to), id)];
      if weighted { weights := weights + [weight]; }
      made := made + [Made(kind, if weighted then Some(weight) else None)];
    }

    /** The updates of `CreateEdge` once the endpoints are found. */
    method Store(from: nat, to: nat, key: nat, kind: GraphType, weighted: bool, weight: real)
      requires from < |adj| == |neighbours| == |inNeighbours| && to < |adj|
      modifies this
      ensures Snapshot() == AddEdge(old(Snapshot()), from, to, key, Made(kind, if weighted then Some(weight) else None))
    {
      var id := |edges|;
      Record(from, to, key, kind, weighted, weight);
      Attach(from, to, id, kind);
    }

    method CreateEdge(mgFrom: nat, mgTo: nat, kind: GraphType, mgEdge: Option<nat>, weighted: bool, weight: real)
      returns (r: Outcome)
      requires Agree(Snapshot()) && |edges| < DELETED
      modifies this
      ensures Agree(Snapshot())
      ensures r == EdgeOutcome(old(Snapshot()), mgFrom, mgTo, mgEdge)
      ensures Snapshot() == GraphView.CreateEdge(old(Snapshot()), mgFrom, mgTo, mgEdge,
                                                 Made(kind, if weighted then Some(weight) else None))
    {
      CreateEdgeKeeps(Snapshot(), mgFrom, mgTo, mgEdge, Made(kind, if weighted then Some(weight) else None));
      var key := if mgEdge.None? then |edges| else mgEdge.value;
      if key in mgToInnerEdge { return Refused; }
      var fromOpt, thrown := InnerNodeId(mgFrom);
      if thrown { return Invalid; }
      var toOpt, thrown' := InnerNodeId(mgTo);
      if thrown' { return Invalid; }
      if fromOpt.None? || toOpt.None? { return Refused; }
      r := Created(|edges|);
      Store(fromOpt.value, toOpt.value, key, kind, weighted, weight);
    }

    method ExistingEdges() returns (r: seq<Edge>)
      ensures r == GraphView.ExistingEdges(edges, |edges|)
    {
      r := [];
      for i := 0 to |edges|
        invariant r == GraphView.ExistingEdges(edges, i)
      {
        if edges[i].id != DELETED { r := r + [edges[i]]; }
      }
    }

    method GetEdgesBetweenNodes(u: nat, v: nat) returns (r: seq<nat>)
      requires Agree(Snapshot())
      ensures r == Scan(edges, u, v, |edges|)
    {
      r := [];
      BetweenIsScan(Snapshot(), u, v, |edges|);
      for i := 0 to |nodesToEdge|
        invariant r == EdgesBetween(Snapshot(), u, v, i)
      {
        var (key, id) := nodesToEdge[i];
        if key == MinMax(u, v) && id < |edges| && edges[id].id != DELETED { r := r + [id]; }
      }
    }

    ghost predicate InRange()
      reads this
    {
      forall u, i :: 0 <= u < |adj| && 0 <= i < |adj[u]| ==> adj[u][i] < |edges|
    }

    /** One adjacency loop of `EraseEdge`. */
    method EraseFrom(u: nat, v: nat)
      requires u < |adj| && InRange()
      modifies this`edges, this`adj
      ensures Snapshot() == EraseHalf(old(Snapshot()), u, v)
      ensures InRange()
    {
      var j := 0;
      while j < |adj[u]| && edges[adj[u][j]].to != v && edges[adj[u][j]].from != v
        invariant 0 <= j <= |adj[u]|
        invariant forall i :: 0 <= i < j ==> !Touches(edges, adj[u][i], v)
      {
        j := j + 1;
      }
      assert j == FirstTo(adj[u], edges, v);
      if j < |adj[u]| {
        var e := adj[u][j];
        edges := edges[e := edges[e].(id := DELETED)];
        adj := adj[u := adj[u][..j] + adj[u][j + 1..]];
      }
    }

    /** One neighbour loop of `EraseEdge`. */
    method EraseNeighbour(u: nat, id: nat)
      requires u < |neighbours|
      modifies this`neighbours
      ensures neighbours == CutNbr(old(neighbours), u, id)
    {
      var j := 0;
      while j < |neighbours[u]| && neighbours[u][j].edge != id
        invariant 0 <= j <= |neighbours[u]|
        invariant forall i :: 0 <= i < j ==> neighbours[u][i].edge != id
      {
        j := j + 1;
      }
      assert j == FirstNbr(neighbours[u], id);
      if j < |neighbours[u]| {
        neighbours := neighbours[u := neighbours[u][..j] + neighbours[u][j + 1..]];
      }
    }

    /** `std::multimap::find`: some entry of the pair, if there is one. */
    method FindEntry(key: (nat, nat)) returns (k: nat)
      ensures if k < |nodesToEdge| then nodesToEdge[k].0 == key
              else k == |nodesToEdge| && forall i :: 0 <= i < |nodesToEdge| ==> nodesToEdge[i].0 != key
    {
      if exists i :: 0 <= i < |nodesToEdge| && nodesToEdge[i].0 == key {
        k :| 0 <= k < |nodesToEdge| && nodesToEdge[k].0 == key;
      } else {
        k := |nodesToEdge|;
      }
    }

    /** The four loops of `EraseEdge`. */
    method EraseLists(u: nat, v: nat, id: nat)
      requires u < |adj| == |neighbours| && v < |adj| && InRange()
      modifies this`edges, this`adj, this`neighbours
      ensures var t := EraseHalf(EraseHalf(old(Snapshot()), u, v), v, u);
              Snapshot() == t.(neighbours := CutNbr(CutNbr(t.neighbours, u, id), v, id))
    {
      EraseFrom(u, v);
      EraseFrom(v, u);
      EraseNeighbour(u, id);
      EraseNeighbour(v, id);
    }

    method EraseEdge(u: nat, v: nat) returns (thrown: bool, ghost found: nat)
      requires Agree(Snapshot())
      modifies this`edges, this`adj, this`neighbours
      ensures thrown <==> u >= |nodes| || v >= |nodes|
      ensures thrown ==> Snapshot() == old(Snapshot())
      ensures !thrown ==> Found(old(edges), u, v, found) &&
                          Some(Snapshot()) == GraphErase.EraseEdge(old(Snapshot()), u, v, found)
    {
      found := 0;
      if u >= |nodes| { return true, 0; }
      if v >= |nodes| { return true, 0; }
      thrown := false;
      var k := FindEntry(MinMax(u, v));
      found := k;
      assert Found(edges, u, v, k) by { EntryIsFound(Snapshot(), u, v, k); }
      if k == |nodesToEdge| { return; }
      IdsInRange(Snapshot());
      EraseLists(u, v, nodesToEdge[k].1);
    }
  }

  lemma {:induction false} EntryIsFound(s: State, u: nat, v: nat, k: nat)
    requires MultimapOk(s)
    requires if k < |s.nodesToEdge| then s.nodesToEdge[k].0 == MinMax(u, v)
             else k == |s.nodesToEdge| && forall i :: 0 <= i < |s.nodesToEdge| ==> s.nodesToEdge[i].0 != MinMax(u, v)
    ensures Found(s.edges, u, v, k)
  {
    forall i | 0 <= i < |s.edges| ensures s.nodesToEdge[i].0 == MinMax(u, v) <==> Joins(s.edges[i], u, v) {}
  }

  lemma {:induction false} IdsInRange(s: State)
    requires Agree(s)
    ensures forall u, i :: 0 <= u < |s.adj| && 0 <= i < |s.adj[u]| ==> s.adj[u][i] < |s.edges|
  {
    forall u, i | 0 <= u < |s.adj| && 0 <= i < |s.adj[u]| ensures s.adj[u][i] < |s.edges| {
      var ns := Nbrs(s.edges, s.made, u, |s.edges|);
      OutMembers(s.edges, s.made, u, |s.edges|, ns[i]);
      assert ns[i] in ns;
    }
  }
}
