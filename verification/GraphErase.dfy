/** `EraseEdge`.  It picks the edges to erase from the adjacency lists but the
    neighbour entries to erase from the multimap, which still lists edges erased
    before and may return any entry of the pair.  `EraseAgreesIff` says exactly
    when the two agree, on every view: directed or not, with parallel edges and
    with self-loops.  `EraseSafeIff` says when they do whatever is returned. */
module GraphErase {
  import opened Options
  import opened GraphView
  import opened GraphCounts

  predicate Touches(edges: seq<Edge>, id: nat, v: nat) {
    id < |edges| && (edges[id].to == v || edges[id].from == v)
  }

  /** The first edge of an adjacency list that touches `v`. */
  function FirstTo(ids: seq<nat>, edges: seq<Edge>, v: nat): (j: nat)
    ensures j <= |ids|
    ensures j < |ids| ==> Touches(edges, ids[j], v)
    ensures forall i :: 0 <= i < j ==> !Touches(edges, ids[i], v)
  {
    if ids == [] then 0 else if Touches(edges, ids[0], v) then 0 else 1 + FirstTo(ids[1..], edges, v)
  }

  function FirstNbr(ns: seq<Neighbour>, id: nat): (j: nat)
    ensures j <= |ns|
    ensures j < |ns| ==> ns[j].edge == id
    ensures forall i :: 0 <= i < j ==> ns[i].edge != id
  {
    if ns == [] then 0 else if ns[0].edge == id then 0 else 1 + FirstNbr(ns[1..], id)
  }

  /** The list without its `j`-th element; unchanged if there is none. */
  function Cut<T>(s: seq<T>, j: nat): (r: seq<T>)
    requires j <= |s|
  {
    if j == |s| then s else s[..j] + s[j + 1..]
  }

  function Mark(edges: seq<Edge>, id: nat): (r: seq<Edge>) {
    if id < |edges| then edges[id := edges[id].(id := DELETED)] else edges
  }

  /** One of the two adjacency loops. */
  function EraseHalf(s: State, u: nat, v: nat): (r: State)
    requires u < |s.adj|
    ensures r == s.(edges := r.edges, adj := r.adj) && |r.adj| == |s.adj|
  {
    var j := FirstTo(s.adj[u], s.edges, v);
    if j == |s.adj[u]| then s
    else s.(edges := Mark(s.edges, s.adj[u][j]), adj := s.adj[u := Cut(s.adj[u], j)])
  }

  function CutNbr(lists: seq<seq<Neighbour>>, u: nat, id: nat): (r: seq<seq<Neighbour>>)
    requires u < |lists|
    ensures |r| == |lists|
  {
    lists[u := Cut(lists[u], FirstNbr(lists[u], id))]
  }

  /** What `multimap::find` may give for a pair: the edge of any of its entries, or
      nothing, here the number of edges, if there is none. */
  predicate Found(edges: seq<Edge>, u: nat, v: nat, e: nat) {
    if e < |edges| then Joins(edges[e], u, v)
    else e == |edges| && forall i :: 0 <= i < |edges| ==> !Joins(edges[i], u, v)
  }

  /** The state after `EraseEdge` when the lookup gave `e`; `None` is the exception
      for an unknown node. */
  function EraseEdge(s: State, u: nat, v: nat, e: nat): (r: Option<State>)
    requires |s.adj| == |s.neighbours| == |s.nodes|
    ensures r.Some? <==> u < |s.nodes| && v < |s.nodes|
    ensures r.Some? ==> r.value == s.(edges := r.value.edges, adj := r.value.adj, neighbours := r.value.neighbours)
    ensures r.Some? ==> |r.value.neighbours| == |s.neighbours| && |r.value.adj| == |s.adj|
  {
    if u >= |s.nodes| || v >= |s.nodes| then None
    else if e >= |s.edges| then Some(s)
    else
      var t := EraseHalf(EraseHalf(s, u, v), v, u);
      Some(t.(neighbours := CutNbr(CutNbr(t.neighbours, u, e), v, e)))
  }

  // ---- lists without the entries of one edge

  function Drop(ns: seq<Neighbour>, l: nat): (r: seq<Neighbour>) {
    if ns == [] then []
    else if ns[|ns| - 1].edge == l then Drop(ns[..|ns| - 1], l)
    else Drop(ns[..|ns| - 1], l) + [ns[|ns| - 1]]
  }

  lemma {:induction false} DropAppend(a: seq<Neighbour>, b: seq<Neighbour>, l: nat)
    ensures Drop(a + b, l) == Drop(a, l) + Drop(b, l)
  {
    if b == [] {
      assert a + b == a;
    } else {
      var n := |b| - 1;
      assert (a + b)[..|a| + n] == a + b[..n];
      DropAppend(a, b[..n], l);
    }
  }

  lemma {:induction false} DropNone(ns: seq<Neighbour>, l: nat)
    requires forall i :: 0 <= i < |ns| ==> ns[i].edge != l
    ensures Drop(ns, l) == ns
  {
    if ns != [] {
      DropNone(ns[..|ns| - 1], l);
      assert ns == ns[..|ns| - 1] + [ns[|ns| - 1]];
    }
  }

  lemma {:induction false} DropAll(ns: seq<Neighbour>, l: nat)
    requires forall i :: 0 <= i < |ns| ==> ns[i].edge == l
    ensures Drop(ns, l) == []
  {
    if ns != [] { DropAll(ns[..|ns| - 1], l); }
  }

  lemma {:induction false} DropTwice(ns: seq<Neighbour>, l: nat)
    ensures Drop(Drop(ns, l), l) == Drop(ns, l)
  {
    if ns != [] {
      var rest, x := ns[..|ns| - 1], ns[|ns| - 1];
      DropTwice(rest, l);
      if x.edge != l {
        DropAppend(Drop(rest, l), [x], l);
        DropNone([x], l);
      }
    }
  }

  lemma {:induction false} OneOccurrence(x: Neighbour, l: nat)
    ensures Occurrences([x], l) == if x.edge == l then 1 else 0
  {
    assert EdgeIds([x]) == [x.edge];
  }

  lemma {:induction false} NoOccurrence(ns: seq<Neighbour>, l: nat)
    requires Occurrences(ns, l) == 0
    ensures Drop(ns, l) == ns && FirstNbr(ns, l) == |ns|
  {
    var ids := EdgeIds(ns);
    forall i | 0 <= i < |ns| ensures ns[i].edge != l { assert ids[i] in multiset(ids); }
    DropNone(ns, l);
  }

  lemma {:induction false} SomeOccurrence(ns: seq<Neighbour>, l: nat)
    ensures Occurrences(ns, l) > 0 <==> FirstNbr(ns, l) < |ns|
  {
    var ids := EdgeIds(ns);
    assert l in multiset(ids) <==> l in ids;
    if l in ids { var i :| 0 <= i < |ids| && ids[i] == l; assert ns[i].edge == l; }
    if FirstNbr(ns, l) < |ns| { assert ids[FirstNbr(ns, l)] == l; }
  }

  lemma {:induction false} DropMiddle(a: seq<Neighbour>, x: Neighbour, b: seq<Neighbour>, l: nat)
    requires x.edge == l
    ensures Drop(a + ([x] + b), l) == Drop(a + b, l)
    ensures Occurrences(a + ([x] + b), l) == Occurrences(a + b, l) + 1
  {
    DropAppend(a, [x] + b, l);
    DropAppend([x], b, l);
    DropAll([x], l);
    DropAppend(a, b, l);
    OccurrencesAppend(a, [x] + b, l);
    OccurrencesAppend([x], b, l);
    OneOccurrence(x, l);
    OccurrencesAppend(a, b, l);
  }

  /** Cutting takes away one entry of the edge, and no other. */
  lemma {:induction false} CutOne(ns: seq<Neighbour>, l: nat)
    ensures var c := Cut(ns, FirstNbr(ns, l));
            && Drop(c, l) == Drop(ns, l)
            && Occurrences(c, l) == if Occurrences(ns, l) == 0 then 0 else Occurrences(ns, l) - 1
  {
    var j := FirstNbr(ns, l);
    SomeOccurrence(ns, l);
    if j < |ns| {
      var a, x, b := ns[..j], ns[j], ns[j + 1..];
      assert ns == a + ([x] + b) && Cut(ns, j) == a + b;
      DropMiddle(a, x, b, l);
    }
  }

  lemma {:induction false} CutIsDrop(ns: seq<Neighbour>, l: nat)
    requires Occurrences(ns, l) <= 1
    ensures Cut(ns, FirstNbr(ns, l)) == Drop(ns, l)
  {
    CutOne(ns, l);
    NoOccurrence(Cut(ns, FirstNbr(ns, l)), l);
  }

  lemma {:induction false} CutTwiceIsDrop(ns: seq<Neighbour>, l: nat)
    requires Occurrences(ns, l) <= 2
    ensures var c := Cut(ns, FirstNbr(ns, l)); Cut(c, FirstNbr(c, l)) == Drop(ns, l)
  {
    CutOne(ns, l);
    CutIsDrop(Cut(ns, FirstNbr(ns, l)), l);
  }

  lemma {:induction false} CutKeeps(ns: seq<Neighbour>, l: nat, x: Neighbour)
    requires x in ns && x.edge != l
    ensures x in Cut(ns, FirstNbr(ns, l))
  {
    var j := FirstNbr(ns, l);
    var i :| 0 <= i < |ns| && ns[i] == x;
    if j < |ns| {
      if i < j { assert (ns[..j] + ns[j + 1..])[i] == x; } else { assert (ns[..j] + ns[j + 1..])[i - 1] == x; }
    }
  }

  lemma {:induction false} EdgeIdsCut(ns: seq<Neighbour>, j: nat)
    requires j <= |ns|
    ensures EdgeIds(Cut(ns, j)) == Cut(EdgeIds(ns), j)
  {}

  // ---- what erasing an edge should do to the lists

  lemma {:induction false} OwnMarked(edges: seq<Edge>, made: seq<Made>, u: nat, i: nat, l: nat)
    requires i < |edges| == |made|
    ensures EdgeNbrs(Mark(edges, l)[i], made[i], i, u) == Drop(EdgeNbrs(edges[i], made[i], i, u), l)
  {
    var own := EdgeNbrs(edges[i], made[i], i, u);
    if i == l { DropAll(own, l); } else { DropNone(own, l); }
  }

  /** What the last edge adds to a list, before and after. */
  lemma {:induction false} OwnParts(edges: seq<Edge>, made: seq<Made>, u: nat, n: nat, l: nat)
    returns (own: seq<Neighbour>, marked: seq<Neighbour>)
    requires 0 < n <= |edges| == |made|
    ensures Nbrs(edges, made, u, n) == Nbrs(edges, made, u, n - 1) + own
    ensures Nbrs(Mark(edges, l), made, u, n) == Nbrs(Mark(edges, l), made, u, n - 1) + marked
    ensures marked == Drop(own, l)
  {
    own := EdgeNbrs(edges[n - 1], made[n - 1], n - 1, u);
    marked := EdgeNbrs(Mark(edges, l)[n - 1], made[n - 1], n - 1, u);
    OwnMarked(edges, made, u, n - 1, l);
  }

  lemma {:induction false} DropBoth(all: seq<Neighbour>, all': seq<Neighbour>, a: seq<Neighbour>, a': seq<Neighbour>,
      b: seq<Neighbour>, b': seq<Neighbour>, l: nat)
    requires all == a + b && all' == a' + b' && a' == Drop(a, l) && b' == Drop(b, l)
    ensures all' == Drop(all, l)
  {
    DropAppend(a, b, l);
  }

  lemma {:induction false} NbrsMarkedNext(edges: seq<Edge>, made: seq<Made>, u: nat, n: nat, l: nat)
    requires 0 < n <= |edges| == |made|
    requires Nbrs(Mark(edges, l), made, u, n - 1) == Drop(Nbrs(edges, made, u, n - 1), l)
    ensures Nbrs(Mark(edges, l), made, u, n) == Drop(Nbrs(edges, made, u, n), l)
  {
    var own, marked := OwnParts(edges, made, u, n, l);
    DropBoth(Nbrs(edges, made, u, n), Nbrs(Mark(edges, l), made, u, n),
             Nbrs(edges, made, u, n - 1), Nbrs(Mark(edges, l), made, u, n - 1), own, marked, l);
  }

  /** Erasing an edge takes all its entries out of every list and no others. */
  lemma {:induction false} NbrsMarked(edges: seq<Edge>, made: seq<Made>, u: nat, n: nat, l: nat)
    requires n <= |edges| == |made|
    ensures Nbrs(Mark(edges, l), made, u, n) == Drop(Nbrs(edges, made, u, n), l)
  {
    if n > 0 {
      NbrsMarked(edges, made, u, n - 1, l);
      NbrsMarkedNext(edges, made, u, n, l);
    }
  }

  lemma {:induction false} InNbrsMarked(edges: seq<Edge>, made: seq<Made>, u: nat, n: nat, l: nat)
    requires n <= |edges| == |made|
    ensures InNbrs(Mark(edges, l), made, u, n) == InNbrs(edges, made, u, n)
  {
    if n > 0 { InNbrsMarked(edges, made, u, n - 1, l); }
  }

  /** The number of entries of an edge in a list. */
  lemma {:induction false} EntriesOf(edges: seq<Edge>, made: seq<Made>, u: nat, l: nat)
    requires |edges| == |made|
    ensures var ns, k := Nbrs(edges, made, u, |edges|), Occurrences(Nbrs(edges, made, u, |edges|), l);
            && k <= 2
            && (l < |edges| && edges[l].from != edges[l].to ==> k <= 1)
            && (l >= |edges| || (edges[l].from != u && edges[l].to != u) ==> k == 0)
            && (l < |edges| && !Live(edges[l]) ==> k == 0)
            && (l < |edges| && made[l].kind.Directed? ==> k <= 1)
  {
    OccurrencesAtNode(edges, made, u, |edges|, l);
  }

  // ---- where the adjacency loops stop

  /** The first live edge leading from `u` to `v`. */
  function FirstLead(edges: seq<Edge>, made: seq<Made>, u: nat, v: nat, k: nat): (r: nat)
    requires k <= |edges| == |made|
    ensures k <= r <= |edges|
    ensures r < |edges| ==> Leads(edges[r], made[r], u, Neighbour(v, r))
    ensures forall i :: k <= i < r ==> !Leads(edges[i], made[i], u, Neighbour(v, i))
    decreases |edges| - k
  {
    if k == |edges| then k
    else if Leads(edges[k], made[k], u, Neighbour(v, k)) then k
    else FirstLead(edges, made, u, v, k + 1)
  }

  /** Edge ids below `n`, in order of creation. */
  predicate Sorted(ns: seq<Neighbour>, n: nat) {
    && (forall a :: 0 <= a < |ns| ==> ns[a].edge < n)
    && (forall a, b :: 0 <= a < b < |ns| ==> ns[a].edge <= ns[b].edge)
  }

  lemma {:induction false} SortedAppend(ns: seq<Neighbour>, own: seq<Neighbour>, i: nat)
    requires Sorted(ns, i) && forall a :: 0 <= a < |own| ==> own[a].edge == i
    ensures Sorted(ns + own, i + 1)
  {}

  lemma {:induction false} OwnIds(e: Edge, m: Made, i: nat, u: nat)
    ensures var own := EdgeNbrs(e, m, i, u); forall a :: 0 <= a < |own| ==> own[a].edge == i
  {}

  lemma {:induction false} NbrsSorted(edges: seq<Edge>, made: seq<Made>, u: nat, n: nat)
    requires n <= |edges| == |made|
    ensures Sorted(Nbrs(edges, made, u, n), n)
  {
    if n > 0 {
      var i := n - 1;
      NbrsSorted(edges, made, u, i);
      OwnIds(edges[i], made[i], i, u);
      SortedAppend(Nbrs(edges, made, u, i), EdgeNbrs(edges[i], made[i], i, u), i);
    }
  }

  /** The first live edge to `v` is in the adjacency list ... */
  lemma {:induction false} LeadIsListed(edges: seq<Edge>, made: seq<Made>, u: nat, v: nat)
    requires |edges| == |made| && FirstLead(edges, made, u, v, 0) < |edges|
    ensures var ns := Nbrs(edges, made, u, |edges|);
            var j := FirstTo(EdgeIds(ns), edges, v);
            j < |ns| && ns[j].edge <= FirstLead(edges, made, u, v, 0)
  {
    var n, l := |edges|, FirstLead(edges, made, u, v, 0);
    var ns := Nbrs(edges, made, u, n);
    var ids := EdgeIds(ns);
    NbrsSorted(edges, made, u, n);
    OutMembers(edges, made, u, n, Neighbour(v, l));
    var a :| 0 <= a < |ns| && ns[a] == Neighbour(v, l);
    assert Touches(edges, ids[a], v);
    assert FirstTo(ids, edges, v) <= a;
  }

  /** ... and nothing the search stops at comes before it. */
  lemma {:induction false} ListedIsLead(edges: seq<Edge>, made: seq<Made>, u: nat, v: nat, j: nat)
    requires |edges| == |made| && u != v
    requires var ns := Nbrs(edges, made, u, |edges|); j < |ns| && Touches(edges, ns[j].edge, v)
    ensures FirstLead(edges, made, u, v, 0) <= Nbrs(edges, made, u, |edges|)[j].edge < |edges|
  {
    var ns := Nbrs(edges, made, u, |edges|);
    OutMembers(edges, made, u, |edges|, ns[j]);
    assert Leads(edges[ns[j].edge], made[ns[j].edge], u, Neighbour(v, ns[j].edge));
  }

  /** The adjacency loop stops at the first live edge to the other node. */
  lemma {:induction false} FindsFirstLead(edges: seq<Edge>, made: seq<Made>, u: nat, v: nat)
    requires |edges| == |made| && u != v
    ensures var ns := Nbrs(edges, made, u, |edges|);
            var j, l := FirstTo(EdgeIds(ns), edges, v), FirstLead(edges, made, u, v, 0);
            if l < |edges| then j < |ns| && ns[j].edge == l && FirstNbr(ns, l) == j else j == |ns|
  {
    var ns := Nbrs(edges, made, u, |edges|);
    var ids := EdgeIds(ns);
    var j, l := FirstTo(ids, edges, v), FirstLead(edges, made, u, v, 0);
    if l < |edges| { LeadIsListed(edges, made, u, v); }
    if j < |ns| {
      ListedIsLead(edges, made, u, v, j);
      assert forall i :: 0 <= i < j ==> !Touches(edges, ids[i], v);
    }
  }

  lemma {:induction false} FirstToMarked(ids: seq<nat>, edges: seq<Edge>, v: nat, l: nat)
    ensures FirstTo(ids, Mark(edges, l), v) == FirstTo(ids, edges, v)
  {
    if ids != [] { FirstToMarked(ids[1..], edges, v, l); }
  }

  // ---- two different nodes

  lemma {:induction false} AdjacencyCut(edges: seq<Edge>, made: seq<Made>, u: nat, v: nat)
    requires |edges| == |made| && u != v
    ensures var ns, l := Nbrs(edges, made, u, |edges|), FirstLead(edges, made, u, v, 0);
            var ids := EdgeIds(ns);
            var j := FirstTo(ids, edges, v);
            && (if l < |edges| then j < |ids| && ids[j] == l else j == |ids|)
            && Cut(ids, j) == EdgeIds(Drop(ns, l))
  {
    var ns, l := Nbrs(edges, made, u, |edges|), FirstLead(edges, made, u, v, 0);
    FindsFirstLead(edges, made, u, v);
    EntriesOf(edges, made, u, l);
    if l < |edges| {
      CutIsDrop(ns, l);
      EdgeIdsCut(ns, FirstNbr(ns, l));
    } else {
      NoOccurrence(ns, l);
    }
  }

  /** One adjacency loop, on a state that has lost nothing but one mark elsewhere. */
  lemma {:induction false} HalfErased(s: State, t: State, u: nat, v: nat, m: nat)
    requires AdjOk(s) && u < |s.nodes| && u != v
    requires t.edges == Mark(s.edges, m) && |t.adj| == |s.adj| && t.adj[u] == s.adj[u]
    ensures var l := FirstLead(s.edges, s.made, u, v, 0);
            EraseHalf(t, u, v) ==
            t.(edges := Mark(t.edges, l), adj := t.adj[u := EdgeIds(Drop(Nbrs(s.edges, s.made, u, |s.edges|), l))])
  {
    AdjacencyCut(s.edges, s.made, u, v);
    FirstToMarked(s.adj[u], s.edges, v, m);
    if FirstLead(s.edges, s.made, u, v, 0) == |s.edges| { assert t.adj[u := t.adj[u]] == t.adj; }
  }

  lemma {:induction false} BothErased(s: State, u: nat, v: nat)
    requires AdjOk(s) && u < |s.nodes| && v < |s.nodes| && u != v
    ensures var l, m, n := FirstLead(s.edges, s.made, u, v, 0), FirstLead(s.edges, s.made, v, u, 0), |s.edges|;
            EraseHalf(EraseHalf(s, u, v), v, u) ==
            s.(edges := Mark(Mark(s.edges, l), m),
               adj := s.adj[u := EdgeIds(Drop(Nbrs(s.edges, s.made, u, n), l))]
                           [v := EdgeIds(Drop(Nbrs(s.edges, s.made, v, n), m))])
  {
    assert Mark(s.edges, |s.edges|) == s.edges;
    HalfErased(s, s, u, v, |s.edges|);
    HalfErased(s, EraseHalf(s, u, v), v, u, FirstLead(s.edges, s.made, u, v, 0));
  }

  /** Erasing marks the first live edge from `u` to `v` and the first from `v` to
      `u`, which is the same if the graph is undirected, and nothing else. */
  lemma {:induction false} EraseMarks(s: State, u: nat, v: nat, e: nat)
    requires Agree(s) && u < |s.nodes| && v < |s.nodes| && u != v && Found(s.edges, u, v, e)
    ensures var r := EraseEdge(s, u, v, e).value;
            && r == s.(edges := r.edges, adj := r.adj, neighbours := r.neighbours)
            && r.edges == Mark(Mark(s.edges, FirstLead(s.edges, s.made, u, v, 0)), FirstLead(s.edges, s.made, v, u, 0))
  {
    BothErased(s, u, v);
    if e == |s.edges| { NoLead(s, u, v); }
  }

  lemma {:induction false} NoLead(s: State, u: nat, v: nat)
    requires |s.edges| == |s.made| && Found(s.edges, u, v, |s.edges|)
    ensures FirstLead(s.edges, s.made, u, v, 0) == FirstLead(s.edges, s.made, v, u, 0) == |s.edges|
  {
    var l, m := FirstLead(s.edges, s.made, u, v, 0), FirstLead(s.edges, s.made, v, u, 0);
    assert l < |s.edges| ==> Joins(s.edges[l], u, v);
    assert m < |s.edges| ==> Joins(s.edges[m], u, v);
  }

  lemma {:induction false} NbrsCutTwice(s: State, u: nat, v: nat, e: nat)
    requires |s.adj| == |s.neighbours| == |s.nodes| && u < |s.nodes| && v < |s.nodes| && e < |s.edges|
    ensures EraseEdge(s, u, v, e).value.neighbours == CutNbr(CutNbr(s.neighbours, u, e), v, e)
  {}

  lemma {:induction false} CutNbrAt(lists: seq<seq<Neighbour>>, u: nat, v: nat, e: nat, x: nat)
    requires u < |lists| && v < |lists| && x < |lists| && u != v
    ensures CutNbr(CutNbr(lists, u, e), v, e)[x] ==
            if x == u || x == v then Cut(lists[x], FirstNbr(lists[x], e)) else lists[x]
  {}

  /** The neighbour lists afterwards. */
  lemma {:induction false} ErasedNbrs(s: State, u: nat, v: nat, e: nat, x: nat)
    requires Agree(s) && u < |s.nodes| && v < |s.nodes| && x < |s.nodes| && u != v
    requires e < |s.edges| && Joins(s.edges[e], u, v)
    ensures CutNbr(CutNbr(s.neighbours, u, e), v, e)[x] == Drop(Nbrs(s.edges, s.made, x, |s.edges|), e)
  {
    var ns := Nbrs(s.edges, s.made, x, |s.edges|);
    CutNbrAt(s.neighbours, u, v, e, x);
    EntriesOf(s.edges, s.made, x, e);
    if x == u || x == v { CutIsDrop(ns, e); } else { NoOccurrence(ns, e); }
  }

  lemma {:induction false} CutNbrKeeps(lists: seq<seq<Neighbour>>, u: nat, e: nat, x: nat, y: Neighbour)
    requires u < |lists| && x < |lists| && y in lists[x] && y.edge != e
    ensures y in CutNbr(lists, u, e)[x]
  {
    if x == u { CutKeeps(lists[u], e, y); }
  }

  /** A marked edge other than the one found stays in the neighbour list. */
  lemma {:induction false} StaysStale(s: State, r: State, u: nat, v: nat, e: nat, x: nat, y: Neighbour)
    requires u < |s.neighbours| && v < |s.neighbours| && x < |s.neighbours| && y in s.neighbours[x] && y.edge != e
    requires EdgesOk(r) && |r.neighbours| == |r.nodes| && r.neighbours == CutNbr(CutNbr(s.neighbours, u, e), v, e)
    requires y.edge < |r.edges| && !Live(r.edges[y.edge])
    ensures y in r.neighbours[x] && !NbrsOk(r)
  {
    CutNbrKeeps(s.neighbours, u, e, x, y);
    CutNbrKeeps(CutNbr(s.neighbours, u, e), v, e, x, y);
    OutMembers(r.edges, r.made, x, |r.edges|, y);
  }

  /** If the edge found is not the first live one from `u` to `v`, the neighbour
      list of `u` keeps an entry of the edge just erased. */
  lemma {:induction false} StaleEntry(s: State, u: nat, v: nat, e: nat)
    requires Agree(s) && u < |s.nodes| && v < |s.nodes| && u != v && e < |s.edges| && Joins(s.edges[e], u, v)
    requires FirstLead(s.edges, s.made, u, v, 0) < |s.edges| && FirstLead(s.edges, s.made, u, v, 0) != e
    ensures var r, l := EraseEdge(s, u, v, e).value, FirstLead(s.edges, s.made, u, v, 0);
            Neighbour(v, l) in r.neighbours[u] && !IsEdgeValid(r, l) && !NbrsOk(r)
  {
    StaleAt(s, u, v, e, u, Neighbour(v, FirstLead(s.edges, s.made, u, v, 0)));
  }

  lemma {:induction false} MarkedTwice(s: State, r: State, l: nat, m: nat)
    requires EdgesOk(s) && r.edges == Mark(Mark(s.edges, l), m) && r.nodes == s.nodes && r.made == s.made
    ensures EdgesOk(r) && |r.edges| == |s.edges|
    ensures forall i :: 0 <= i < |s.edges| && i in {l, m} ==> !Live(r.edges[i])
  {}

  lemma {:induction false} StaleMarked(s: State, r: State, u: nat, v: nat, e: nat, x: nat, y: Neighbour, l: nat, m: nat)
    requires NbrsOk(s) && u < |s.nodes| && v < |s.nodes| && x < |s.nodes|
    requires y.edge < |s.edges| && y.edge in {l, m} && y.edge != e && Leads(s.edges[y.edge], s.made[y.edge], x, y)
    requires r.edges == Mark(Mark(s.edges, l), m) && r.nodes == s.nodes && r.made == s.made
    requires |r.neighbours| == |r.nodes| && r.neighbours == CutNbr(CutNbr(s.neighbours, u, e), v, e)
    ensures y in r.neighbours[x] && !IsEdgeValid(r, y.edge) && !NbrsOk(r)
  {
    MarkedTwice(s, r, l, m);
    OutMembers(s.edges, s.made, x, |s.edges|, y);
    StaysStale(s, r, u, v, e, x, y);
  }

  lemma {:induction false} StaleAt(s: State, u: nat, v: nat, e: nat, x: nat, y: Neighbour)
    requires Agree(s) && u < |s.nodes| && v < |s.nodes| && u != v && e < |s.edges| && Joins(s.edges[e], u, v)
    requires x < |s.nodes| && y.edge < |s.edges| && y.edge != e && Leads(s.edges[y.edge], s.made[y.edge], x, y)
    requires y.edge in {FirstLead(s.edges, s.made, u, v, 0), FirstLead(s.edges, s.made, v, u, 0)}
    ensures var r := EraseEdge(s, u, v, e).value; y in r.neighbours[x] && !IsEdgeValid(r, y.edge) && !NbrsOk(r)
  {
    EraseMarks(s, u, v, e);
    NbrsCutTwice(s, u, v, e);
    StaleMarked(s, EraseEdge(s, u, v, e).value, u, v, e, x, y,
                FirstLead(s.edges, s.made, u, v, 0), FirstLead(s.edges, s.made, v, u, 0));
  }

  lemma {:induction false} MarkedAgrees(s: State, t: State, l: nat, m: nat)
    requires Agree(s)
    requires t == s.(edges := Mark(Mark(s.edges, l), m), adj := t.adj, neighbours := t.neighbours)
    requires |t.neighbours| == |t.adj| == |s.nodes|
    requires forall x :: 0 <= x < |s.nodes| ==> t.neighbours[x] == Drop(Drop(Nbrs(s.edges, s.made, x, |s.edges|), l), m)
    requires forall x :: 0 <= x < |s.nodes| ==> t.adj[x] == EdgeIds(t.neighbours[x])
    ensures Agree(t)
  {
    var edges := Mark(s.edges, l);
    assert EdgesOk(t);
    forall x | 0 <= x < |s.nodes|
      ensures t.inNeighbours[x] == InNbrs(t.edges, t.made, x, |t.edges|)
      ensures t.neighbours[x] == Nbrs(t.edges, t.made, x, |t.edges|)
    {
      InNbrsMarked(s.edges, s.made, x, |s.edges|, l);
      InNbrsMarked(edges, s.made, x, |s.edges|, m);
      NbrsMarked(s.edges, s.made, x, |s.edges|, l);
      NbrsMarked(edges, s.made, x, |s.edges|, m);
    }
    assert Shaped(t);
  }

  lemma {:induction false} DropWithin(ns: seq<Neighbour>, l: nat, n: nat)
    requires forall a :: 0 <= a < |ns| ==> ns[a].edge < n
    ensures forall a :: 0 <= a < |Drop(ns, l)| ==> Drop(ns, l)[a].edge < n
  {
    if ns != [] { DropWithin(ns[..|ns| - 1], l, n); }
  }

  /** There is no edge `n` to drop. */
  lemma {:induction false} DropNothing(edges: seq<Edge>, made: seq<Made>, x: nat, l: nat)
    requires |edges| == |made|
    ensures var ns := Nbrs(edges, made, x, |edges|);
            Drop(ns, |edges|) == ns && Drop(Drop(ns, l), |edges|) == Drop(ns, l)
  {
    var ns := Nbrs(edges, made, x, |edges|);
    NbrsSorted(edges, made, x, |edges|);
    DropNone(ns, |edges|);
    DropWithin(ns, l, |edges|);
    DropNone(Drop(ns, l), |edges|);
  }

  lemma {:induction false} NotLedIsAbsent(edges: seq<Edge>, made: seq<Made>, u: nat, v: nat, e: nat)
    requires |edges| == |made| && u != v && e < |edges| && Joins(edges[e], u, v)
    requires FirstLead(edges, made, u, v, 0) == |edges|
    ensures var ns := Nbrs(edges, made, u, |edges|); Drop(ns, e) == ns
  {
    var ns := Nbrs(edges, made, u, |edges|);
    assert !Leads(edges[e], made[e], u, Neighbour(v, e));
    forall i | 0 <= i < |ns| ensures ns[i].edge != e { OutMembers(edges, made, u, |edges|, ns[i]); }
    DropNone(ns, e);
  }

  /** If the edge found is the only one marked, the lists lose its entries. */
  lemma {:induction false} SameDrops(s: State, u: nat, v: nat, e: nat, x: nat)
    requires |s.edges| == |s.made| && u != v && e < |s.edges| && Joins(s.edges[e], u, v)
    requires FirstLead(s.edges, s.made, u, v, 0) in {|s.edges|, e} &&
             FirstLead(s.edges, s.made, v, u, 0) in {|s.edges|, e}
    ensures var l, m := FirstLead(s.edges, s.made, u, v, 0), FirstLead(s.edges, s.made, v, u, 0);
            var ns := Nbrs(s.edges, s.made, x, |s.edges|);
            && Drop(Drop(ns, l), m) == Drop(ns, e)
            && (x == u ==> Drop(ns, l) == Drop(ns, e)) && (x == v ==> Drop(ns, m) == Drop(ns, e))
            && (x != u && x != v ==> Drop(ns, e) == ns)
  {
    var l, m := FirstLead(s.edges, s.made, u, v, 0), FirstLead(s.edges, s.made, v, u, 0);
    var ns := Nbrs(s.edges, s.made, x, |s.edges|);
    DropNothing(s.edges, s.made, x, e);
    DropTwice(ns, e);
    if x != u && x != v { EntriesOf(s.edges, s.made, x, e); NoOccurrence(ns, e); }
    if x == u && l != e { NotLedIsAbsent(s.edges, s.made, u, v, e); }
    if x == v && m != e { NotLedIsAbsent(s.edges, s.made, v, u, e); }
  }

  lemma {:induction false} ErasedAdj(s: State, u: nat, v: nat, e: nat, x: nat)
    requires Agree(s) && u < |s.nodes| && v < |s.nodes| && x < |s.nodes| && u != v && e < |s.edges|
    ensures var l, m := FirstLead(s.edges, s.made, u, v, 0), FirstLead(s.edges, s.made, v, u, 0);
            var ns := Nbrs(s.edges, s.made, x, |s.edges|);
            EraseEdge(s, u, v, e).value.adj[x] ==
            EdgeIds(if x == u then Drop(ns, l) else if x == v then Drop(ns, m) else ns)
  {
    BothErased(s, u, v);
  }

  lemma {:induction false} ErasedLists(s: State, u: nat, v: nat, e: nat, x: nat)
    requires Agree(s) && u < |s.nodes| && v < |s.nodes| && x < |s.nodes| && u != v
    requires e < |s.edges| && Joins(s.edges[e], u, v)
    requires FirstLead(s.edges, s.made, u, v, 0) in {|s.edges|, e} &&
             FirstLead(s.edges, s.made, v, u, 0) in {|s.edges|, e}
    ensures var l, m := FirstLead(s.edges, s.made, u, v, 0), FirstLead(s.edges, s.made, v, u, 0);
            var r, ns := EraseEdge(s, u, v, e).value, Nbrs(s.edges, s.made, x, |s.edges|);
            r.neighbours[x] == Drop(Drop(ns, l), m) == Drop(ns, e) && r.adj[x] == EdgeIds(Drop(ns, e))
  {
    assert EraseEdge(s, u, v, e).value.neighbours[x] == Drop(Nbrs(s.edges, s.made, x, |s.edges|), e) by {
      NbrsCutTwice(s, u, v, e);
      ErasedNbrs(s, u, v, e, x);
    }
    ErasedAdj(s, u, v, e, x);
    SameDrops(s, u, v, e, x);
  }

  lemma {:induction false} EraseApartAgrees(s: State, u: nat, v: nat, e: nat)
    requires Agree(s) && u < |s.nodes| && v < |s.nodes| && u != v && e < |s.edges| && Joins(s.edges[e], u, v)
    requires FirstLead(s.edges, s.made, u, v, 0) in {|s.edges|, e} &&
             FirstLead(s.edges, s.made, v, u, 0) in {|s.edges|, e}
    ensures Agree(EraseEdge(s, u, v, e).value)
  {
    var l, m := FirstLead(s.edges, s.made, u, v, 0), FirstLead(s.edges, s.made, v, u, 0);
    var r := EraseEdge(s, u, v, e).value;
    forall x | 0 <= x < |s.nodes|
      ensures r.neighbours[x] == Drop(Drop(Nbrs(s.edges, s.made, x, |s.edges|), l), m)
      ensures r.adj[x] == EdgeIds(r.neighbours[x])
    {
      ErasedLists(s, u, v, e, x);
    }
    EraseMarks(s, u, v, e);
    MarkedAgrees(s, r, l, m);
  }

  // ---- a node and itself

  /** Every entry of a node touches it, so the loop stops at the first. */
  lemma {:induction false} LoopHalf(t: State, u: nat)
    requires u < |t.adj| && forall i :: 0 <= i < |t.adj[u]| ==> Touches(t.edges, t.adj[u][i], u)
    ensures EraseHalf(t, u, u) ==
            if t.adj[u] == [] then t
            else t.(edges := Mark(t.edges, t.adj[u][0]), adj := t.adj[u := t.adj[u][1..]])
  {
    if t.adj[u] != [] { assert Cut(t.adj[u], 0) == t.adj[u][1..]; }
  }

  lemma {:induction false} AllTouch(s: State, u: nat)
    requires AdjOk(s) && u < |s.nodes|
    ensures forall i :: 0 <= i < |s.adj[u]| ==> Touches(s.edges, s.adj[u][i], u)
  {
    var ns := Nbrs(s.edges, s.made, u, |s.edges|);
    forall i | 0 <= i < |s.adj[u]| ensures Touches(s.edges, s.adj[u][i], u) {
      OutMembers(s.edges, s.made, u, |s.edges|, ns[i]);
    }
  }

  /** The `i`-th entry of a list, or the number of edges if there is none. */
  function EntryAt(s: State, u: nat, i: nat): (id: nat)
    requires u < |s.adj|
  {
    if i < |s.adj[u]| then s.adj[u][i] else |s.edges|
  }

  /** Erasing between a node and itself marks its first two entries. */
  lemma {:induction false} LoopErased(s: State, u: nat)
    requires AdjOk(s) && u < |s.nodes|
    ensures EraseHalf(EraseHalf(s, u, u), u, u) ==
            s.(edges := Mark(Mark(s.edges, EntryAt(s, u, 0)), EntryAt(s, u, 1)),
               adj := s.adj[u := s.adj[u][if |s.adj[u]| < 2 then |s.adj[u]| else 2..]])
  {
    var a := s.adj[u];
    AllTouch(s, u);
    LoopHalf(s, u);
    var t := EraseHalf(s, u, u);
    if a != [] {
      forall i | 0 <= i < |t.adj[u]| ensures Touches(t.edges, t.adj[u][i], u) {
        assert t.adj[u][i] == a[i + 1];
      }
      LoopHalf(t, u);
      assert |a| >= 2 ==> a[1..][1..] == a[2..];
    } else {
      assert s.adj[u := a[0..]] == s.adj;
    }
  }

  /** Both entries marked, if there are so many, are the loop's. */
  predicate LoopOk(s: State, u: nat, e: nat)
    requires u < |s.adj|
  {
    EntryAt(s, u, 0) in {|s.edges|, e} && EntryAt(s, u, 1) in {|s.edges|, e}
  }

  lemma {:induction false} LoopDrops(s: State, u: nat, e: nat)
    requires Agree(s) && u < |s.nodes| && e < |s.edges| && LoopOk(s, u, e)
    ensures var ns := Nbrs(s.edges, s.made, u, |s.edges|);
            && Drop(Drop(ns, EntryAt(s, u, 0)), EntryAt(s, u, 1)) == Drop(ns, e)
            && s.adj[u][if |s.adj[u]| < 2 then |s.adj[u]| else 2..] == EdgeIds(Drop(ns, e))
  {
    var ns := Nbrs(s.edges, s.made, u, |s.edges|);
    assert forall i :: 0 <= i < |ns| ==> ns[i].edge < |s.edges| by { NbrsSorted(s.edges, s.made, u, |s.edges|); }
    assert Drop(Drop(ns, e), |s.edges|) == Drop(ns, e) by { DropNothing(s.edges, s.made, u, e); }
    if |ns| == 0 {
      assert EntryAt(s, u, 0) == EntryAt(s, u, 1) == |s.edges|;
    } else if |ns| == 1 {
      assert EntryAt(s, u, 0) == e && EntryAt(s, u, 1) == |s.edges|;
      DropAll(ns, e);
    } else {
      assert EntryAt(s, u, 0) == EntryAt(s, u, 1) == e;
      assert Drop(Drop(ns, e), e) == Drop(ns, e) by { DropTwice(ns, e); }
      assert s.adj[u][2..] == EdgeIds(ns[2..]) && Drop(ns, e) == ns[2..] by { TwoOff(s, u, e); }
    }
  }

  lemma {:induction false} DropFirst(x: Neighbour, t: seq<Neighbour>, l: nat)
    requires x.edge == l
    ensures Drop([x] + t, l) == Drop(t, l) && Occurrences([x] + t, l) == Occurrences(t, l) + 1
  {
    DropAppend([x], t, l);
    DropAll([x], l);
    OccurrencesAppend([x], t, l);
    OneOccurrence(x, l);
  }

  lemma {:induction false} TwoOffList(ns: seq<Neighbour>, e: nat)
    requires |ns| >= 2 && ns[0].edge == ns[1].edge == e && Occurrences(ns, e) <= 2
    ensures Drop(ns, e) == ns[2..]
  {
    var x, y, rest := ns[0], ns[1], ns[2..];
    assert ns == [x] + ([y] + rest);
    DropFirst(x, [y] + rest, e);
    DropFirst(y, rest, e);
    NoOccurrence(rest, e);
  }

  lemma {:induction false} TwoOff(s: State, u: nat, e: nat)
    requires Agree(s) && u < |s.nodes| && e < |s.edges| && |s.adj[u]| >= 2 && s.adj[u][0] == s.adj[u][1] == e
    ensures Drop(Nbrs(s.edges, s.made, u, |s.edges|), e) == Nbrs(s.edges, s.made, u, |s.edges|)[2..]
  {
    EntriesOf(s.edges, s.made, u, e);
    TwoOffList(Nbrs(s.edges, s.made, u, |s.edges|), e);
  }

  lemma {:induction false} EraseLoopAgrees(s: State, u: nat, e: nat)
    requires Agree(s) && u < |s.nodes| && e < |s.edges| && Joins(s.edges[e], u, u) && LoopOk(s, u, e)
    ensures Agree(EraseEdge(s, u, u, e).value)
  {
    var r, n := EraseEdge(s, u, u, e).value, |s.edges|;
    LoopErased(s, u);
    LoopDrops(s, u, e);
    forall x | 0 <= x < |s.nodes|
      ensures r.neighbours[x] == Drop(Drop(Nbrs(s.edges, s.made, x, n), EntryAt(s, u, 0)), EntryAt(s, u, 1))
      ensures r.adj[x] == EdgeIds(r.neighbours[x])
    {
      var ns := Nbrs(s.edges, s.made, x, n);
      EntriesOf(s.edges, s.made, x, e);
      if x == u { CutTwiceIsDrop(ns, e); } else { NoOccurrence(ns, e); DropNothing(s.edges, s.made, x, e); }
    }
    MarkedAgrees(s, r, EntryAt(s, u, 0), EntryAt(s, u, 1));
  }

  lemma {:induction false} EraseLoopStale(s: State, u: nat, e: nat, i: nat)
    requires Agree(s) && u < |s.nodes| && e < |s.edges|
    requires i < 2 && i < |s.adj[u]| && s.adj[u][i] != e
    ensures !Agree(EraseEdge(s, u, u, e).value)
  {
    var r, ns := EraseEdge(s, u, u, e).value, Nbrs(s.edges, s.made, u, |s.edges|);
    LoopErased(s, u);
    NbrsCutTwice(s, u, u, e);
    assert ns[i].edge < |s.edges| by { NbrsSorted(s.edges, s.made, u, |s.edges|); }
    if EdgesOk(r) { StaysStale(s, r, u, u, e, u, ns[i]); }
  }

  // ---- what erasing does, in agreement or not

  lemma {:induction false} LoopNbrs(s: State, u: nat, e: nat, x: nat)
    requires Agree(s) && u < |s.nodes| && x < |s.nodes| && e < |s.edges| && Joins(s.edges[e], u, u)
    ensures CutNbr(CutNbr(s.neighbours, u, e), u, e)[x] == Drop(Nbrs(s.edges, s.made, x, |s.edges|), e)
  {
    var ns := Nbrs(s.edges, s.made, x, |s.edges|);
    EntriesOf(s.edges, s.made, x, e);
    if x == u { CutTwiceIsDrop(ns, e); } else { NoOccurrence(ns, e); }
  }

  /** Whatever the nodes and the edge found: every neighbour list loses exactly the
      entries of the edge found.  Between two nodes the adjacency list of each loses
      those of the first live edge to the other; a node and itself loses its first
      two entries. */
  lemma {:induction false} EraseMeans(s: State, u: nat, v: nat, e: nat, x: nat)
    requires Agree(s) && u < |s.nodes| && v < |s.nodes| && x < |s.nodes| && e < |s.edges| && Joins(s.edges[e], u, v)
    ensures var r, ns := EraseEdge(s, u, v, e).value, Nbrs(s.edges, s.made, x, |s.edges|);
            && r.neighbours[x] == Drop(ns, e)
            && (u != v ==>
                  r.adj[x] == EdgeIds(if x == u then Drop(ns, FirstLead(s.edges, s.made, u, v, 0))
                                      else if x == v then Drop(ns, FirstLead(s.edges, s.made, v, u, 0))
                                      else ns))
            && (u == v ==> r.adj == s.adj[u := s.adj[u][if |s.adj[u]| < 2 then |s.adj[u]| else 2..]])
  {
    NbrsCutTwice(s, u, v, e);
    if u == v {
      LoopNbrs(s, u, e, x);
      LoopErased(s, u);
    } else {
      ErasedNbrs(s, u, v, e, x);
      ErasedAdj(s, u, v, e, x);
    }
  }

  /** Without the entries of one edge: the others, in order. */
  lemma {:induction false} DropMeans(a: seq<Neighbour>, x: Neighbour, l: nat)
    ensures Drop([], l) == [] && Drop(a + [x], l) == if x.edge == l then Drop(a, l) else Drop(a, l) + [x]
  {
    assert (a + [x])[..|a|] == a;
  }

  // ---- exactly when erasing keeps the agreement

  /** Nothing was found, or it is the only edge the adjacency loops reach. */
  predicate EraseOk(s: State, u: nat, v: nat, e: nat)
    requires |s.edges| == |s.made| && u < |s.adj|
  {
    e < |s.edges| ==>
      if u == v then LoopOk(s, u, e)
      else
        && FirstLead(s.edges, s.made, u, v, 0) in {|s.edges|, e}
        && FirstLead(s.edges, s.made, v, u, 0) in {|s.edges|, e}
  }

  /** `EraseEdge` leaves a consistent graph exactly when the lookup gave the first
      live edge in each direction in which there is one. */
  lemma {:induction false} EraseAgreesIff(s: State, u: nat, v: nat, e: nat)
    requires Agree(s) && u < |s.nodes| && v < |s.nodes| && Found(s.edges, u, v, e)
    ensures EraseEdge(s, u, v, e).Some?
    ensures Agree(EraseEdge(s, u, v, e).value) <==> EraseOk(s, u, v, e)
  {
    if e < |s.edges| {
      if EraseOk(s, u, v, e) {
        if u == v { EraseLoopAgrees(s, u, e); } else { EraseApartAgrees(s, u, v, e); }
      } else if u == v {
        EraseLoopStale(s, u, e, if EntryAt(s, u, 0) in {|s.edges|, e} then 1 else 0);
      } else {
        var l, m := FirstLead(s.edges, s.made, u, v, 0), FirstLead(s.edges, s.made, v, u, 0);
        if l !in {|s.edges|, e} {
          StaleAt(s, u, v, e, u, Neighbour(v, l));
        } else {
          StaleAt(s, u, v, e, v, Neighbour(u, m));
        }
      }
    }
  }

  // ---- exactly when it does so whatever the lookup gives

  predicate NoneLive(edges: seq<Edge>, u: nat, v: nat) {
    forall i :: 0 <= i < |edges| ==> !(Live(edges[i]) && Joins(edges[i], u, v))
  }

  /** At most one edge, erased or not, was ever created between the nodes. */
  predicate JoinedOnce(edges: seq<Edge>, u: nat, v: nat) {
    forall i, j :: 0 <= i < j < |edges| ==> !(Joins(edges[i], u, v) && Joins(edges[j], u, v))
  }

  /** Two nodes: no live edge joins them, or only one edge ever did.  A node and
      itself: it has no entries left, or one self-loop ever, which comes first. */
  predicate EraseSafe(s: State, u: nat, v: nat)
    requires u < |s.adj|
  {
    if u == v then
      || s.adj[u] == []
      || (JoinedOnce(s.edges, u, u) && forall e :: 0 <= e < |s.edges| && Joins(s.edges[e], u, u) ==> LoopOk(s, u, e))
    else NoneLive(s.edges, u, v) || JoinedOnce(s.edges, u, v)
  }

  lemma {:induction false} SafeIsOk(s: State, u: nat, v: nat, e: nat)
    requires |s.edges| == |s.made| && u < |s.adj| && Found(s.edges, u, v, e) && EraseSafe(s, u, v)
    ensures EraseOk(s, u, v, e)
  {
    if u != v && e < |s.edges| {
      var l, m := FirstLead(s.edges, s.made, u, v, 0), FirstLead(s.edges, s.made, v, u, 0);
      assert l < |s.edges| ==> Live(s.edges[l]) && Joins(s.edges[l], u, v);
      assert m < |s.edges| ==> Live(s.edges[m]) && Joins(s.edges[m], u, v);
    }
  }

  /** Of two edges of a pair, the lookup may give the one not met. */
  lemma {:induction false} OtherFound(edges: seq<Edge>, u: nat, v: nat, l: nat) returns (e: nat)
    requires !JoinedOnce(edges, u, v)
    ensures e < |edges| && Found(edges, u, v, e) && e != l
  {
    var i, j :| 0 <= i < j < |edges| && Joins(edges[i], u, v) && Joins(edges[j], u, v);
    e := if i == l then j else i;
  }

  lemma {:induction false} LiveIsLed(s: State, u: nat, v: nat) returns (l: nat)
    requires |s.edges| == |s.made| && !NoneLive(s.edges, u, v)
    ensures l < |s.edges| && l in {FirstLead(s.edges, s.made, u, v, 0), FirstLead(s.edges, s.made, v, u, 0)}
  {
    var i :| 0 <= i < |s.edges| && Live(s.edges[i]) && Joins(s.edges[i], u, v);
    assert Leads(s.edges[i], s.made[i], u, Neighbour(v, i)) || Leads(s.edges[i], s.made[i], v, Neighbour(u, i));
    l := FirstLead(s.edges, s.made, u, v, 0);
    if l == |s.edges| { l := FirstLead(s.edges, s.made, v, u, 0); }
  }

  lemma {:induction false} UnsafeIsNotOk(s: State, u: nat, v: nat) returns (e: nat)
    requires AdjOk(s) && u < |s.nodes| && !EraseSafe(s, u, v)
    ensures Found(s.edges, u, v, e) && !EraseOk(s, u, v, e)
  {
    if u != v {
      var l := LiveIsLed(s, u, v);
      e := OtherFound(s.edges, u, v, l);
    } else if JoinedOnce(s.edges, u, u) {
      e :| 0 <= e < |s.edges| && Joins(s.edges[e], u, u) && !LoopOk(s, u, e);
    } else {
      NbrsSorted(s.edges, s.made, u, |s.edges|);
      e := OtherFound(s.edges, u, u, s.adj[u][0]);
    }
  }

  /** `EraseEdge` leaves a consistent graph whatever the lookup gives exactly when
      this holds before the call. */
  lemma {:induction false} EraseSafeIff(s: State, u: nat, v: nat)
    requires Agree(s) && u < |s.nodes| && v < |s.nodes|
    ensures (forall e :: Found(s.edges, u, v, e) ==> Agree(EraseEdge(s, u, v, e).value)) <==> EraseSafe(s, u, v)
  {
    if EraseSafe(s, u, v) {
      forall e | Found(s.edges, u, v, e) ensures Agree(EraseEdge(s, u, v, e).value) {
        SafeIsOk(s, u, v, e);
        EraseAgreesIff(s, u, v, e);
      }
    } else {
      var e := UnsafeIsNotOk(s, u, v);
      EraseAgreesIff(s, u, v, e);
    }
  }
}
