/** The whole conversion: paths are grouped by root, at most 16 roots are kept,
    and the trees of each root are merged one after the other. */
module ToTree {
  import opened Options
  import opened Probing
  import opened BucketTable
  import opened TreeValues
  import opened Merge
  import opened HashedMerge
  import opened PathTrees

  /** The fixed size of the root arrays (`MAX_PROPERTIES`). */
  const MAX_ROOTS: nat := 16

  /** An element of the input list; one that the path accessor refuses is skipped. */
  datatype Item = PathItem(path: Path) | NotAPath

  datatype Input = NullInput | PathInput(path: Path) | ListInput(items: seq<Item>) | OtherInput(value: Value)

  function Paths(items: seq<Item>): (ps: seq<Path>) {
    if items == [] then []
    else
      var n := |items| - 1;
      Paths(items[..n]) + if items[n].PathItem? then [items[n].path] else []
  }

  /** Exactly the paths among the items, in order. */
  lemma {:induction false} PathsMeans(a: seq<Item>, b: seq<Item>, p: Path)
    ensures Paths(a + b) == Paths(a) + Paths(b)
    ensures Paths([PathItem(p)]) == [p] && Paths([NotAPath]) == []
  {
    PathsAppend(a, b);
    assert [PathItem(p)][..0] == [] && [NotAPath][..0] == [];
  }

  lemma {:induction false} PathsAppend(a: seq<Item>, b: seq<Item>)
    ensures Paths(a + b) == Paths(a) + Paths(b)
  {
    if b == [] {
      assert a + b == a && Paths(a) + [] == Paths(a);
    } else {
      var n := |b| - 1;
      PathsAppend(a, b[..n]);
      assert (a + b)[..|a| + n] == a + b[..n];
    }
  }

  // ---- what the run computes

  /** The distinct roots in order of first appearance. */
  function AllRoots(ps: seq<Path>): (r: seq<int>) {
    if ps == [] then []
    else
      var n := |ps| - 1;
      var r := AllRoots(ps[..n]);
      if ps[n].node.id in r then r else r + [ps[n].node.id]
  }

  /** The roots that get a group. */
  function Roots(ps: seq<Path>): (r: seq<int>)
    ensures |r| <= MAX_ROOTS
  {
    if ps == [] then []
    else
      var n := |ps| - 1;
      var r := Roots(ps[..n]);
      if ps[n].node.id in r || |r| >= MAX_ROOTS then r else r + [ps[n].node.id]
  }

  function OfRoot(ps: seq<Path>, root: int): (r: seq<Path>)
    ensures forall i :: 0 <= i < |r| ==> r[i].node.id == root
  {
    if ps == [] then []
    else
      var n := |ps| - 1;
      OfRoot(ps[..n], root) + if ps[n].node.id == root then [ps[n]] else []
  }

  /** The trees of the paths, merged in order. */
  function Group(ps: seq<Path>, cfg: Config): (r: Value)
    requires ps != []
    ensures r.Obj?
  {
    var n := |ps| - 1;
    if n == 0 then Build(ps[0], cfg) else MergeTrees(Group(ps[..n], cfg), Build(ps[n], cfg))
  }

  lemma {:induction false} GroupStep(ps: seq<Path>, cfg: Config)
    requires |ps| > 1
    ensures Group(ps, cfg) == MergeTrees(Group(ps[..|ps| - 1], cfg), Build(ps[|ps| - 1], cfg))
  {}

  function Result(ps: seq<Path>, cfg: Config): (r: Value)
  {
    var roots := Roots(ps);
    if roots == [] then Obj(map[])
    else
      var trees := seq(|roots|, j requires 0 <= j < |roots| => RootTree(ps, roots[j], cfg));
      if |roots| == 1 then trees[0] else Lst(trees)
  }

  function RootTree(ps: seq<Path>, root: int, cfg: Config): (r: Value)
  {
    if OfRoot(ps, root) == [] then Obj(map[]) else Group(OfRoot(ps, root), cfg)
  }

  // ---- room: every merge of the run fits its tables

  predicate GroupFits(ps: seq<Path>, cfg: Config) {
    |ps| > 1 ==>
      var n := |ps| - 1;
      GroupFits(ps[..n], cfg) && FitsTrees(Group(ps[..n], cfg), Build(ps[n], cfg))
  }

  predicate RunFits(ps: seq<Path>, cfg: Config) {
    forall root :: root in Roots(ps) ==> GroupFits(OfRoot(ps, root), cfg)
  }

  /** No included property, of a node or of an edge, holds a list with more than
      one identity in it. */
  predicate NarrowProps(p: Path, cfg: Config) {
    NarrowMap(NodeProps(p.node, cfg)) &&
    (p.Hop? ==> NarrowMap(EdgeFields(p.edge, cfg)) && NarrowProps(p.rest, cfg))
  }

  predicate NarrowMap(m: map<string, Value>) {
    forall k :: k in m ==> Narrow(m[k])
  }

  lemma {:induction false} NarrowNode(v: Vertex, cfg: Config)
    requires NarrowMap(NodeProps(v, cfg))
    ensures NarrowMap(NodeMap(v, cfg))
  {
    var props := NodeProps(v, cfg);
    if v.labels == [] {
      NarrowInserted(props, "_id", Int(v.id));
    } else {
      NarrowType(v.labels);
      NarrowInserted(props, "_type", TypeValue(v.labels));
      NarrowInserted(InsertNew(props, "_type", TypeValue(v.labels)), "_id", Int(v.id));
    }
  }

  lemma {:induction false} NarrowInserted(m: map<string, Value>, k: string, v: Value)
    requires NarrowMap(m) && Narrow(v)
    ensures NarrowMap(InsertNew(m, k, v))
  {}

  lemma {:induction false} NarrowType(labels: seq<string>)
    requires labels != []
    ensures Narrow(TypeValue(labels))
  {
    var v := TypeValue(labels);
    if v.Lst? { NoKeysInStrings(v.items); }
  }

  lemma {:induction false} NoKeysInStrings(vs: seq<Value>)
    requires forall i :: 0 <= i < |vs| ==> vs[i].Str?
    ensures Keys(vs) == {}
  {
    if vs != [] { NoKeysInStrings(vs[..|vs| - 1]); }
  }

  lemma {:induction false} NarrowUnion(m: map<string, Value>, n: map<string, Value>)
    requires NarrowMap(m) && NarrowMap(n)
    ensures Narrow(Obj(m + n))
  {}

  lemma {:induction false} NarrowOne(v: Value)
    requires Narrow(v)
    ensures Narrow(Lst([v]))
  {
    KeysSize([v]);
  }

  lemma {:induction false} NarrowChild(e: Edge, rest: Path, cfg: Config)
    requires NarrowMap(EdgeFields(e, cfg)) && Narrow(Build(rest, cfg))
    ensures Narrow(Lst([Child(e, rest, cfg)]))
  {
    assert NarrowMap(Build(rest, cfg).fields);
    NarrowUnion(EdgeFields(e, cfg), Build(rest, cfg).fields);
    NarrowOne(Child(e, rest, cfg));
  }

  lemma {:induction false} NarrowInsert(m: map<string, Value>, k: string, v: Value)
    requires NarrowMap(m) && Narrow(v)
    ensures Narrow(Obj(InsertNew(m, k, v)))
  {}

  /** The tree of a path is a chain: one child per relationship list. */
  lemma {:induction false} BuildNarrow(p: Path, cfg: Config)
    requires NarrowProps(p, cfg)
    ensures Narrow(Build(p, cfg))
  {
    NarrowNode(p.node, cfg);
    if p.Hop? {
      BuildNarrow(p.rest, cfg);
      NarrowChild(p.edge, p.rest, cfg);
      NarrowInsert(NodeMap(p.node, cfg), RelKey(p.edge, cfg), Lst([Child(p.edge, p.rest, cfg)]));
    }
  }

  /** In every run over such paths no probe meets a full table without its key,
      however many paths there are and whatever they share. */
  lemma {:induction false} RunsFit(ps: seq<Path>, cfg: Config)
    requires forall p :: p in ps ==> NarrowProps(p, cfg)
    ensures RunFits(ps, cfg)
  {
    forall root | root in Roots(ps) ensures GroupFits(OfRoot(ps, root), cfg) {
      OfRootMembers(ps, root);
      GroupsFit(OfRoot(ps, root), cfg);
    }
  }

  lemma {:induction false} GroupsFit(ps: seq<Path>, cfg: Config)
    requires forall p :: p in ps ==> NarrowProps(p, cfg)
    ensures GroupFits(ps, cfg)
  {
    if |ps| > 1 {
      var n := |ps| - 1;
      GroupsFit(ps[..n], cfg);
      BuildNarrow(ps[n], cfg);
      NarrowFitsTrees(Group(ps[..n], cfg), Build(ps[n], cfg));
    }
  }

  // ---- a run that does not end

  /** `n` maps with an identity each, their ids counting up from `base`. */
  function Numbered(base: int, n: nat): (xs: seq<Value>)
    ensures |xs| == n
  {
    if n == 0 then []
    else Numbered(base, n - 1) + [Obj(map["_id" := Int(base + n - 1), "_type" := Str("T")])]
  }

  lemma {:induction false} NumberedKeys(base: int, n: nat)
    ensures |Keys(Numbered(base, n))| == n
    ensures forall key :: key in Keys(Numbered(base, n)) ==> base <= key.id < base + n
  {
    if n > 0 {
      NumberedKeys(base, n - 1);
      assert Numbered(base, n)[..n - 1] == Numbered(base, n - 1);
      assert Identity(Numbered(base, n)[n - 1]) == Some(Key(base + n - 1, Fnv("T")));
    }
  }

  lemma {:induction false} TooManyNumbered()
    ensures |Keys(Numbered(0, 33)) + Keys(Numbered(33, 33))| == 66
  {
    NumberedKeys(0, 33);
    NumberedKeys(33, 33);
    assert Keys(Numbered(0, 33)) !! Keys(Numbered(33, 33));
  }

  lemma {:induction false} FitsBelow(t: Value, s: Value, k: string)
    requires t.Obj? && s.Obj? && SharedList(t, s, k) && FitsTrees(t, s)
    ensures FitsLists(t.fields[k].items, s.fields[k].items)
  {}

  /** Items of one identity are merged. */
  lemma {:induction false} ItemsMeet(c: Value, d: Value)
    requires c.Obj? && d.Obj? && Identity(c).Some? && Identity(c) == Identity(d) && FitsItems([c], [d])
    ensures FitsTrees(c, d)
  {
    assert Target([c], d) == 0 && [c][0] == c && [d][0] == d;
  }

  /** The path's tree has one child under `rel`, which holds the list under `k`. */
  predicate Lists(p: Path, rel: string, k: string, xs: seq<Value>, key: Key, cfg: Config) {
    && p.Hop? && !Meta(rel) && !Meta(k) && rel in Build(p, cfg).fields
    && var c := Child(p.edge, p.rest, cfg);
       && Build(p, cfg).fields[rel] == Lst([c]) && Identity(c) == Some(key)
       && k in c.fields && c.fields[k] == Lst(xs)
  }

  lemma {:induction false} ListsMeet(p: Path, q: Path, rel: string, k: string, xs: seq<Value>, ys: seq<Value>, key: Key,
      cfg: Config)
    requires Lists(p, rel, k, xs, key, cfg) && Lists(q, rel, k, ys, key, cfg)
    requires FitsTrees(Build(p, cfg), Build(q, cfg))
    ensures FitsLists(xs, ys)
  {
    var c, d := Child(p.edge, p.rest, cfg), Child(q.edge, q.rest, cfg);
    FitsBelow(Build(p, cfg), Build(q, cfg), rel);
    ItemsMeet(c, d);
    FitsBelow(c, d, k);
  }

  /** A vertex A, an edge R with a list as a property, and a vertex B. */
  function Listing(id: int, xs: seq<Value>): (p: Path) {
    Hop(Vertex(1, ["A"], map[]), Edge(id, "R", map["l" := Lst(xs)]), Stop(Vertex(2, ["B"], map[])))
  }

  lemma {:induction false} ListingChild(e: Edge, b: Vertex, rel: string, name: string, xs: seq<Value>, cfg: Config)
    requires RelKey(e, cfg) == rel && name in e.props && cfg.relProp(rel, name) && e.props[name] == Lst(xs)
    requires name != "_id" && b.props == map[]
    ensures var c, k := Child(e, Stop(b), cfg), DotKey(rel, name);
            !Meta(k) && k in c.fields && c.fields[k] == Lst(xs)
  {
    var k := DotKey(rel, name);
    assert k[|rel|] == '.';
    DotKeyInjective(rel);
    assert DotKey(rel, name) != DotKey(rel, "_id");
    assert EdgeFields(e, cfg)[k] == Lst(xs);
    assert NodeProps(b, cfg) == map[];
  }

  lemma {:induction false} ListingLists(id: int, xs: seq<Value>)
    ensures Lists(Listing(id, xs), "R", DotKey("R", "l"), xs, Key(2, Fnv("B")), KeepAll())
  {
    var p := Listing(id, xs);
    ListingChild(p.edge, p.rest.node, "R", "l", xs, KeepAll());
    assert NodeMap(p.rest.node, KeepAll()) == map["_type" := Str("B"), "_id" := Int(2)];
    assert NodeMap(p.node, KeepAll()) == map["_type" := Str("A"), "_id" := Int(1)];
  }

  lemma {:induction false} TwoOfRoot(p: Path, q: Path, cfg: Config)
    requires p.node.id == q.node.id && RunFits([p, q], cfg)
    ensures FitsTrees(Build(p, cfg), Build(q, cfg))
  {
    var ps, root := [p, q], p.node.id;
    assert ps[..1] == [p] && [p][..0] == [];
    assert OfRoot([p], root) == [p];
    assert OfRoot(ps, root) == ps;
    assert Roots([p]) == [root];
    assert root in Roots(ps);
  }

  lemma {:induction false} ListingRun(xs: seq<Value>, ys: seq<Value>)
    requires RunFits([Listing(7, xs), Listing(8, ys)], KeepAll())
    ensures FitsLists(xs, ys)
  {
    ListingLists(7, xs);
    ListingLists(8, ys);
    TwoOfRoot(Listing(7, xs), Listing(8, ys), KeepAll());
    ListsMeet(Listing(7, xs), Listing(8, ys), "R", DotKey("R", "l"), xs, ys, Key(2, Fnv("B")), KeepAll());
  }

  lemma {:induction false} ListingsHang(xs: seq<Value>, ys: seq<Value>)
    requires |xs| < SMALL_MERGE_THRESHOLD < |Keys(xs) + Keys(ys)|
    ensures !RunFits([Listing(7, xs), Listing(8, ys)], KeepAll())
    ensures exists s, i :: |s| == SMALL_MERGE_THRESHOLD && Hangs(xs, ys, s, i)
  {
    if RunFits([Listing(7, xs), Listing(8, ys)], KeepAll()) { ListingRun(xs, ys); }
    assert Pow2(6) == 64;
    KeysSize(xs);
    HangsIff(xs, ys, SMALL_MERGE_THRESHOLD);
  }

  /** Two edges from vertex 1 to vertex 2, each with a property that lists 33 maps:
      66 identities meet in 64 slots, so a probe of the merge never stops. */
  lemma {:induction false} FullTableExample()
    ensures !RunFits([Listing(7, Numbered(0, 33)), Listing(8, Numbered(33, 33))], KeepAll())
    ensures exists s, i :: |s| == SMALL_MERGE_THRESHOLD && Hangs(Numbered(0, 33), Numbered(33, 33), s, i)
  {
    TooManyNumbered();
    ListingsHang(Numbered(0, 33), Numbered(33, 33));
  }

  lemma {:induction false} OfRootMembers(ps: seq<Path>, root: int)
    ensures forall p :: p in OfRoot(ps, root) <==> p in ps && p.node.id == root
  {
    if ps != [] {
      var n := |ps| - 1;
      OfRootMembers(ps[..n], root);
      assert ps == ps[..n] + [ps[n]];
    }
  }

  lemma {:induction false} RootsMembers(ps: seq<Path>, root: int)
    requires root in Roots(ps)
    ensures OfRoot(ps, root) != []
  {
    var n := |ps| - 1;
    if root in Roots(ps[..n]) { RootsMembers(ps[..n], root); }
  }

  // ---- every kept root, and every walk

  /** The roots that get a group are the first 16 distinct ones, so every root is
      kept exactly when there are no more than 16. */
  lemma {:induction false} RootsAreFirst16(ps: seq<Path>)
    ensures Roots(ps) <= AllRoots(ps)
    ensures |Roots(ps)| == if |AllRoots(ps)| <= 16 then |AllRoots(ps)| else 16
    ensures Roots(ps) == AllRoots(ps) <==> |AllRoots(ps)| <= 16
    ensures forall root :: root in AllRoots(ps) <==> exists p :: p in ps && p.node.id == root
  {
    forall root ensures root in AllRoots(ps) <==> exists p :: p in ps && p.node.id == root {
      AllRootsMembers(ps, root);
    }
    if ps != [] {
      var n := |ps| - 1;
      RootsAreFirst16(ps[..n]);
      var r, all := Roots(ps[..n]), AllRoots(ps[..n]);
      if ps[n].node.id !in r && |r| < MAX_ROOTS { assert r == all; }
    }
  }

  lemma {:induction false} AllRootsMembers(ps: seq<Path>, root: int)
    ensures root in AllRoots(ps) <==> exists p :: p in ps && p.node.id == root
  {
    if ps != [] {
      var n := |ps| - 1;
      AllRootsMembers(ps[..n], root);
      assert ps == ps[..n] + [ps[n]];
      if ps[n].node.id == root { assert ps[n] in ps; }
    }
  }

  /** The first path that starts at a root, or the number of paths. */
  function FirstAt(ps: seq<Path>, root: int): (i: nat)
    ensures i <= |ps|
    ensures i < |ps| ==> ps[i].node.id == root
    ensures forall j :: 0 <= j < i ==> ps[j].node.id != root
  {
    if ps == [] || ps[0].node.id == root then 0 else 1 + FirstAt(ps[1..], root)
  }

  lemma {:induction false} FirstAtNext(ps: seq<Path>, p: Path, root: int)
    ensures FirstAt(ps + [p], root) ==
            if FirstAt(ps, root) < |ps| then FirstAt(ps, root) else if p.node.id == root then |ps| else |ps| + 1
  {
    var next, i, j := ps + [p], FirstAt(ps, root), FirstAt(ps + [p], root);
    assert forall k :: 0 <= k < |ps| ==> next[k] == ps[k];
    assert next[|ps|] == p;
  }

  /** Each root is the root of some path, and they are in order of their first. */
  ghost predicate InOrder(roots: seq<int>, ps: seq<Path>) {
    && (forall i :: 0 <= i < |roots| ==> FirstAt(ps, roots[i]) < |ps|)
    && (forall i, j :: 0 <= i < j < |roots| ==> FirstAt(ps, roots[i]) < FirstAt(ps, roots[j]))
  }

  lemma {:induction false} InOrderNext(roots: seq<int>, ps: seq<Path>, p: Path)
    requires InOrder(roots, ps)
    ensures InOrder(roots, ps + [p])
    ensures FirstAt(ps, p.node.id) == |ps| ==> InOrder(roots + [p.node.id], ps + [p])
  {
    forall i | 0 <= i < |roots| ensures FirstAt(ps + [p], roots[i]) == FirstAt(ps, roots[i]) {
      FirstAtNext(ps, p, roots[i]);
    }
    FirstAtNext(ps, p, p.node.id);
  }

  /** The roots come in the order in which their first paths do, so each once. */
  lemma {:induction false} RootsInOrder(ps: seq<Path>)
    ensures InOrder(AllRoots(ps), ps)
  {
    if ps != [] {
      var front, p := ps[..|ps| - 1], ps[|ps| - 1];
      RootsInOrder(front);
      InOrderNext(AllRoots(front), front, p);
      AllRootsMembers(front, p.node.id);
      assert ps == front + [p];
    }
  }

  lemma {:induction false} GroupTree(ps: seq<Path>, root: int, cfg: Config, rels: set<string>,
      taken: int -> set<string>)
    requires ps != [] && PlainRels(rels) && forall p :: p in ps ==> p.node.id == root && Tidy(p, cfg, rels, taken)
    ensures Tree(Group(ps, cfg), rels, taken) && HasId(Group(ps, cfg), root)
  {
    var n := |ps| - 1;
    BuildTree(ps[n], cfg, rels, taken);
    if n > 0 {
      GroupTree(ps[..n], root, cfg, rels, taken);
      MergeTreesTree(Group(ps[..n], cfg), Build(ps[n], cfg), rels, taken);
    }
  }

  lemma {:induction false} GroupWalks(ps: seq<Path>, root: int, cfg: Config, rels: set<string>,
      taken: int -> set<string>, w: Walk)
    requires ps != [] && PlainRels(rels) && forall p :: p in ps ==> p.node.id == root && Tidy(p, cfg, rels, taken)
    ensures HasWalk(Group(ps, cfg), rels, w) <==> exists p :: p in ps && w <= KeptWalk(p, cfg)
  {
    var n := |ps| - 1;
    BuildWalks(ps[n], cfg, rels, taken, w);
    assert ps == ps[..n] + [ps[n]];
    if n > 0 {
      GroupWalks(ps[..n], root, cfg, rels, taken, w);
      assert HasWalk(Group(ps, cfg), rels, w) <==>
        HasWalk(Group(ps[..n], cfg), rels, w) || HasWalk(Build(ps[n], cfg), rels, w) by {
        GroupStep(ps, cfg);
        GroupTree(ps[..n], root, cfg, rels, taken);
        BuildTree(ps[n], cfg, rels, taken);
        MergeTreesWalks(Group(ps[..n], cfg), Build(ps[n], cfg), rels, taken, w);
      }
    }
  }

  /** No walk is lost and none invented: the walks of a kept root's tree are
      exactly the prefixes of the paths that start at that root, each up to its
      first taken key. */
  lemma {:induction false} RunKeepsExactlyTheWalks(ps: seq<Path>, root: int, cfg: Config, rels: set<string>,
      taken: int -> set<string>, w: Walk)
    requires PlainRels(rels) && forall p :: p in ps ==> Tidy(p, cfg, rels, taken)
    requires root in Roots(ps)
    ensures HasWalk(RootTree(ps, root, cfg), rels, w) <==>
            exists p :: p in ps && p.node.id == root && w <= KeptWalk(p, cfg)
  {
    RootsMembers(ps, root);
    OfRootMembers(ps, root);
    GroupWalks(OfRoot(ps, root), root, cfg, rels, taken, w);
    if p :| p in ps && p.node.id == root && w <= KeptWalk(p, cfg) {
      assert p in OfRoot(ps, root);
    }
  }

  /** Without name clashes these are all prefixes. */
  lemma {:induction false} CleanRunKeepsAllWalks(ps: seq<Path>, root: int, cfg: Config, rels: set<string>, w: Walk)
    requires PlainRels(rels) && forall p :: p in ps ==> Clean(p, cfg, rels)
    requires root in Roots(ps)
    ensures HasWalk(RootTree(ps, root, cfg), rels, w) <==>
            exists p :: p in ps && p.node.id == root && w <= PathWalk(p, cfg)
  {
    forall p | p in ps ensures Tidy(p, cfg, rels, NoneTaken()) && KeptWalk(p, cfg) == PathWalk(p, cfg) {
      CleanIsTidy(p, cfg, rels);
    }
    RunKeepsExactlyTheWalks(ps, root, cfg, rels, NoneTaken(), w);
  }

  // ---- the value returned

  /** One more path changes the tree of its own root alone: it becomes the first
      tree or is merged into the one there is. */
  lemma {:induction false} RootTreeNext(ps: seq<Path>, p: Path, root: int, cfg: Config)
    ensures var before, after := RootTree(ps, root, cfg), RootTree(ps + [p], root, cfg);
            if root != p.node.id then after == before
            else if FirstAt(ps, root) == |ps| then after == Build(p, cfg)
            else before.Obj? && after == MergeTrees(before, Build(p, cfg))
  {
    NextPath(ps, p, root, cfg);
    OfRootIff(ps, root);
  }

  lemma {:induction false} OfRootIff(ps: seq<Path>, root: int)
    ensures OfRoot(ps, root) != [] <==> FirstAt(ps, root) < |ps|
  {
    OfRootMembers(ps, root);
    if FirstAt(ps, root) < |ps| { assert ps[FirstAt(ps, root)] in OfRoot(ps, root); }
    if OfRoot(ps, root) != [] {
      var q := OfRoot(ps, root)[0];
      assert q in OfRoot(ps, root);
      var i :| 0 <= i < |ps| && ps[i] == q;
    }
  }

  function Smaller(a: nat, b: nat): (r: nat) { if a < b then a else b }

  /** No path: the empty map.  One root: its tree.  More: the list of the trees of
      the first sixteen, in order. */
  ghost predicate Answers(r: Value, ps: seq<Path>, tree: int -> Value) {
    var all := AllRoots(ps);
    if ps == [] then r == Obj(map[])
    else if |all| == 1 then r == tree(all[0])
    else
      && r.Lst? && |r.items| == Smaller(|all|, 16)
      && forall j :: 0 <= j < |r.items| ==> r.items[j] == tree(all[j])
  }

  lemma {:induction false} ResultMeans(ps: seq<Path>, cfg: Config)
    ensures Answers(Result(ps, cfg), ps, (root: int) => RootTree(ps, root, cfg))
  {
    RootsAreFirst16(ps);
    if ps != [] { AllRootsMembers(ps, ps[0].node.id); }
  }

  /** The tree shows the root's id, and its walks are those of the root's paths. */
  ghost predicate ShowsRoot(v: Value, ps: seq<Path>, root: int, cfg: Config, rels: set<string>) {
    && HasId(v, root)
    && forall w :: HasWalk(v, rels, w) <==> exists p :: p in ps && p.node.id == root && w <= KeptWalk(p, cfg)
  }

  lemma {:induction false} RootTreeShows(ps: seq<Path>, root: int, cfg: Config, rels: set<string>,
      taken: int -> set<string>)
    requires PlainRels(rels) && forall p :: p in ps ==> Tidy(p, cfg, rels, taken)
    requires root in Roots(ps)
    ensures ShowsRoot(RootTree(ps, root, cfg), ps, root, cfg, rels)
  {
    RootsMembers(ps, root);
    OfRootMembers(ps, root);
    GroupTree(OfRoot(ps, root), root, cfg, rels, taken);
    forall w
      ensures HasWalk(RootTree(ps, root, cfg), rels, w) <==>
              exists p :: p in ps && p.node.id == root && w <= KeptWalk(p, cfg)
    {
      RunKeepsExactlyTheWalks(ps, root, cfg, rels, taken, w);
    }
  }

  /** So the value returned for a list of paths has one tree per root, in order of
      first appearance, with the root's id and exactly the walks of its paths. */
  lemma {:induction false} ResultShows(ps: seq<Path>, cfg: Config, rels: set<string>, taken: int -> set<string>)
    requires PlainRels(rels) && forall p :: p in ps ==> Tidy(p, cfg, rels, taken)
    ensures var r, all := Result(ps, cfg), AllRoots(ps);
            if ps == [] then r == Obj(map[])
            else if |all| == 1 then ShowsRoot(r, ps, all[0], cfg, rels)
            else
              && r.Lst? && |r.items| == Smaller(|all|, 16)
              && forall j :: 0 <= j < |r.items| ==> ShowsRoot(r.items[j], ps, all[j], cfg, rels)
  {
    ResultMeans(ps, cfg);
    RootsAreFirst16(ps);
    forall j | 0 <= j < |Roots(ps)|
      ensures ShowsRoot(RootTree(ps, AllRoots(ps)[j], cfg), ps, AllRoots(ps)[j], cfg, rels)
    {
      RootTreeShows(ps, Roots(ps)[j], cfg, rels, taken);
    }
    if ps != [] { AllRootsMembers(ps, ps[0].node.id); }
  }

  // ---- the loop

  lemma {:induction false} RootsDistinct(ps: seq<Path>)
    ensures forall i, j :: 0 <= i < j < |Roots(ps)| ==> Roots(ps)[i] != Roots(ps)[j]
  {
    if ps != [] { RootsDistinct(ps[..|ps| - 1]); }
  }

  lemma {:induction false} NewRootIsFirst(ps: seq<Path>, root: int)
    requires root !in Roots(ps) && |Roots(ps)| < MAX_ROOTS
    ensures OfRoot(ps, root) == []
  {
    if ps != [] { NewRootIsFirst(ps[..|ps| - 1], root); }
  }

  /** What one more path changes. */
  lemma {:induction false} NextPath(ps: seq<Path>, p: Path, root: int, cfg: Config)
    ensures Roots(ps + [p]) ==
            if p.node.id in Roots(ps) || |Roots(ps)| >= MAX_ROOTS then Roots(ps) else Roots(ps) + [p.node.id]
    ensures root != p.node.id ==> RootTree(ps + [p], root, cfg) == RootTree(ps, root, cfg)
    ensures root == p.node.id && OfRoot(ps, root) == [] ==> RootTree(ps + [p], root, cfg) == Build(p, cfg)
    ensures root == p.node.id && OfRoot(ps, root) != [] ==>
              && RootTree(ps + [p], root, cfg) == MergeTrees(Group(OfRoot(ps, root), cfg), Build(p, cfg))
              && (GroupFits(OfRoot(ps + [p], root), cfg) ==> FitsTrees(Group(OfRoot(ps, root), cfg), Build(p, cfg)))
  {
    var next, mine := ps + [p], OfRoot(ps, root);
    assert next[..|ps|] == ps;
    assert mine + [] == mine && (mine + [p])[..|mine|] == mine;
  }

  /** The linear search for the group of a root. */
  method FindGroup(rootIds: array<int>, count: nat, root: int) returns (j: nat)
    requires count <= rootIds.Length
    ensures j <= count && root !in rootIds[..j]
    ensures j < count ==> rootIds[j] == root
  {
    j := 0;
    while j < count && rootIds[j] != root
      invariant 0 <= j <= count && root !in rootIds[..j]
    {
      j := j + 1;
    }
  }

  /** The root arrays after the paths `ps`. */
  ghost predicate Grouped(rootIds: seq<int>, groups: seq<Value>, count: nat, ps: seq<Path>, cfg: Config) {
    && |rootIds| == |groups| == MAX_ROOTS && count <= MAX_ROOTS
    && rootIds[..count] == Roots(ps)
    && forall j :: 0 <= j < count ==> groups[j] == RootTree(ps, rootIds[j], cfg)
  }

  lemma {:induction false} GroupsAfterNew(rootIds: seq<int>, groups: seq<Value>, count: nat, ps: seq<Path>, p: Path,
      cfg: Config)
    requires Grouped(rootIds, groups, count, ps, cfg)
    requires count < MAX_ROOTS && p.node.id !in rootIds[..count]
    ensures Grouped(rootIds[count := p.node.id], groups[count := Build(p, cfg)], count + 1, ps + [p], cfg)
  {
    var ids, trees := rootIds[count := p.node.id], groups[count := Build(p, cfg)];
    NewRootIsFirst(ps, p.node.id);
    assert ids[..count + 1] == rootIds[..count] + [p.node.id];
    forall j | 0 <= j < count + 1 ensures trees[j] == RootTree(ps + [p], ids[j], cfg) {
      NextPath(ps, p, ids[j], cfg);
      if j < count { assert rootIds[..count][j] == ids[j]; }
    }
    NextPath(ps, p, p.node.id, cfg);
  }

  lemma {:induction false} GroupsAfterMerge(rootIds: seq<int>, groups: seq<Value>, count: nat, ps: seq<Path>, p: Path,
      cfg: Config, i: nat)
    requires Grouped(rootIds, groups, count, ps, cfg)
    requires i < count && rootIds[i] == p.node.id
    ensures OfRoot(ps, p.node.id) != [] && groups[i] == Group(OfRoot(ps, p.node.id), cfg)
    ensures Grouped(rootIds, groups[i := MergeTrees(groups[i], Build(p, cfg))], count, ps + [p], cfg)
  {
    var trees := groups[i := MergeTrees(groups[i], Build(p, cfg))];
    assert rootIds[..count][i] == p.node.id;
    RootsMembers(ps, p.node.id);
    RootsDistinct(ps);
    forall j | 0 <= j < count ensures trees[j] == RootTree(ps + [p], rootIds[j], cfg) {
      NextPath(ps, p, rootIds[j], cfg);
      assert rootIds[..count][j] == rootIds[j];
    }
    NextPath(ps, p, p.node.id, cfg);
  }

  lemma {:induction false} GroupsAfterSkip(rootIds: seq<int>, groups: seq<Value>, count: nat, ps: seq<Path>, p: Path,
      cfg: Config)
    requires Grouped(rootIds, groups, count, ps, cfg)
    requires count == MAX_ROOTS && p.node.id !in rootIds[..count]
    ensures Grouped(rootIds, groups, count, ps + [p], cfg)
  {
    forall j | 0 <= j < count ensures groups[j] == RootTree(ps + [p], rootIds[j], cfg) {
      NextPath(ps, p, rootIds[j], cfg);
      assert rootIds[..count][j] == rootIds[j];
    }
    NextPath(ps, p, p.node.id, cfg);
  }

  /** One turn of the grouping loop. */
  method AddPath(rootIds: array<int>, groups: array<Value>, count: nat, p: Path, cfg: Config, ghost ps: seq<Path>)
    returns (count': nat)
    requires Grouped(rootIds[..], groups[..], count, ps, cfg)
    requires p.node.id in Roots(ps + [p]) ==> GroupFits(OfRoot(ps + [p], p.node.id), cfg)
    modifies rootIds, groups
    ensures Grouped(rootIds[..], groups[..], count', ps + [p], cfg)
  {
    var j := FindGroup(rootIds, count, p.node.id);
    assert rootIds[..][..count] == rootIds[..count];
    if j < count {
      GroupsAfterMerge(rootIds[..], groups[..], count, ps, p, cfg, j);
      NextPath(ps, p, p.node.id, cfg);
      assert rootIds[..count][j] == p.node.id;
      var merged := MergeTreesHashed(groups[j], Build(p, cfg));
      groups[j] := merged;
      count' := count;
    } else if count >= MAX_ROOTS {
      GroupsAfterSkip(rootIds[..], groups[..], count, ps, p, cfg);
      count' := count;
    } else {
      GroupsAfterNew(rootIds[..], groups[..], count, ps, p, cfg);
      rootIds[count] := p.node.id;
      groups[count] := Build(p, cfg);
      count' := count + 1;
    }
  }

  lemma {:induction false} RunFitsPrefix(ps: seq<Path>, n: nat, cfg: Config)
    requires n <= |ps| && RunFits(ps, cfg)
    ensures RunFits(ps[..n], cfg)
  {
    if n == |ps| {
      assert ps[..n] == ps;
    } else {
      var m := |ps| - 1;
      assert ps == ps[..m] + [ps[m]];
      forall root | root in Roots(ps[..m]) ensures GroupFits(OfRoot(ps[..m], root), cfg) {
        assert root in Roots(ps);
        var mine := OfRoot(ps[..m], root);
        assert mine + [] == mine && (mine + [ps[m]])[..|mine|] == mine;
      }
      RunFitsPrefix(ps[..m], n, cfg);
      assert ps[..m][..n] == ps[..n];
    }
  }

  /** `convert_to_tree_impl` on a list. */
  method ConvertList(items: seq<Item>, cfg: Config) returns (r: Value)
    requires RunFits(Paths(items), cfg)
    ensures r == Result(Paths(items), cfg)
    ensures Answers(r, Paths(items), (root: int) => RootTree(Paths(items), root, cfg))
  {
    var rootIds := new int[MAX_ROOTS](_ => 0);
    var groups := new Value[MAX_ROOTS](_ => Other(0));
    var count: nat := 0;
    ghost var ps := [];
    for i := 0 to |items|
      invariant ps == Paths(items[..i]) && ps <= Paths(items)
      invariant Grouped(rootIds[..], groups[..], count, ps, cfg)
    {
      PathsPrefix(items, i + 1);
      assert items[..i + 1][..i] == items[..i];
      if items[i].PathItem? {
        var p := items[i].path;
        ghost var all := Paths(items);
        RunFitsPrefix(all, |ps| + 1, cfg);
        assert all[..|ps| + 1] == ps + [p];
        count := AddPath(rootIds, groups, count, p, cfg, ps);
        ps := ps + [p];
      }
    }
    assert items[..|items|] == items;
    ResultMeans(Paths(items), cfg);
    r := Collect(rootIds, groups, count, ps, cfg);
  }

  /** The end of the conversion: an empty map, the only tree, or the list. */
  method Collect(rootIds: array<int>, groups: array<Value>, count: nat, ghost ps: seq<Path>, cfg: Config)
    returns (r: Value)
    requires Grouped(rootIds[..], groups[..], count, ps, cfg)
    ensures r == Result(ps, cfg)
  {
    if count == 0 {
      r := Obj(map[]);
    } else if count == 1 {
      r := groups[0];
    } else {
      r := Lst(groups[..count]);
      assert groups[..count] == Result(ps, cfg).items;
    }
  }

  lemma {:induction false} PathsPrefix(items: seq<Item>, n: nat)
    requires n <= |items|
    ensures Paths(items[..n]) <= Paths(items)
  {
    if n == |items| {
      assert items[..n] == items;
    } else {
      PathsPrefix(items[..|items| - 1], n);
      assert items[..|items| - 1][..n] == items[..n];
    }
  }

  /** The value returned for each kind of input. */
  function Converted(input: Input, cfg: Config): (r: Value) {
    match input
    case NullInput => Obj(map[])
    case PathInput(p) => Build(p, cfg)
    case ListInput(items) => Result(Paths(items), cfg)
    case OtherInput(v) => v
  }

  function AsItems(ps: seq<Path>): (items: seq<Item>) {
    seq(|ps|, i requires 0 <= i < |ps| => PathItem(ps[i]))
  }

  lemma {:induction false} PathsOfItems(ps: seq<Path>)
    ensures Paths(AsItems(ps)) == ps
  {
    if ps != [] {
      var n := |ps| - 1;
      assert AsItems(ps)[..n] == AsItems(ps[..n]);
      PathsOfItems(ps[..n]);
      assert ps == ps[..n] + [ps[n]];
    }
  }

  lemma {:induction false} ResultOfOne(p: Path, cfg: Config)
    ensures Result([p], cfg) == Build(p, cfg)
  {
    var one, id := [p], p.node.id;
    assert one[..0] == [];
    assert OfRoot(one, id) == OfRoot([], id) + [p];
    assert OfRoot([], id) + [p] == [p];
    assert Roots(one) == [id];
  }

  /** Null converts like the empty list, a path like the list of it alone, a list
      like the list of its paths, and anything else is returned as it is. */
  lemma {:induction false} ConvertLaws(p: Path, items: seq<Item>, v: Value, cfg: Config)
    ensures Converted(NullInput, cfg) == Converted(ListInput([]), cfg)
    ensures Converted(PathInput(p), cfg) == Converted(ListInput([PathItem(p)]), cfg)
    ensures Converted(ListInput(items), cfg) == Converted(ListInput(AsItems(Paths(items))), cfg)
    ensures Converted(OtherInput(v), cfg) == v
  {
    assert Paths([PathItem(p)]) == [p] by { PathsMeans([], [], p); }
    assert Result([p], cfg) == Build(p, cfg) by { ResultOfOne(p, cfg); }
    assert Paths(AsItems(Paths(items))) == Paths(items) by { PathsOfItems(Paths(items)); }
    assert Result([], cfg) == Obj(map[]);
  }

  method Convert(input: Input, cfg: Config) returns (r: Value)
    requires input.ListInput? ==> RunFits(Paths(input.items), cfg)
    ensures r == Converted(input, cfg)
  {
    match input
    case NullInput => r := Obj(map[]);
    case PathInput(p) => r := Build(p, cfg);
    case ListInput(items) => r := ConvertList(items, cfg);
    case OtherInput(v) => r := v;
  }
}
