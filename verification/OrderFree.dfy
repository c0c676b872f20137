/** What a merged tree holds at the end of every walk, and when the order of the
    paths does not matter: the tree of a root depends only on the set of paths, up
    to the order of children, exactly when paths that share a walk show the same
    fields at its end. */
module OrderFree {
  import opened Options
  import opened Probing
  import opened BucketTable
  import opened TreeValues
  import opened Merge
  import opened PathTrees
  import opened ToTree

  // ---- the fields at the end of a walk

  function FindId(xs: seq<Value>, id: int): (j: nat)
    ensures j <= |xs|
    ensures j < |xs| ==> HasId(xs[j], id)
    ensures forall i :: 0 <= i < j ==> !HasId(xs[i], id)
  {
    if xs == [] then 0 else if HasId(xs[0], id) then 0 else 1 + FindId(xs[1..], id)
  }

  /** The fields, other than relationship lists, of the node a walk leads to. */
  function At(v: Value, rels: set<string>, w: Walk): (r: Option<map<string, Value>>)
    decreases |w|, 1
  {
    if !v.Obj? then None
    else if w == [] then Some(v.fields - rels)
    else if w[0].rel in rels && w[0].rel in v.fields && v.fields[w[0].rel].Lst? then
      AtList(v.fields[w[0].rel].items, rels, w[0].id, w[1..])
    else None
  }

  function AtList(xs: seq<Value>, rels: set<string>, id: int, w: Walk): (r: Option<map<string, Value>>)
    decreases |w|, 2
  {
    var j := FindId(xs, id);
    if j < |xs| then At(xs[j], rels, w) else None
  }

  /** A tree over one snapshot, in which the id of a node fixes the hash of its
      type: relationship keys hold non-empty lists of identified trees, no two
      siblings share an identity, and no other field but `_type` is a list. */
  ghost predicate Good(v: Value, rels: set<string>, ty: int -> nat) {
    && v.Obj?
    && (forall k :: k in v.fields && k !in rels && !Meta(k) ==> !v.fields[k].Lst?)
    && (forall k :: k in v.fields && k in rels ==>
          v.fields[k].Lst? && v.fields[k].items != [] && Siblings(v.fields[k].items) &&
          forall i :: 0 <= i < |v.fields[k].items| ==>
            Named(v.fields[k].items[i], ty) && Good(v.fields[k].items[i], rels, ty))
  }

  predicate Named(v: Value, ty: int -> nat) {
    Identity(v).Some? && Identity(v).value.typeHash == ty(Identity(v).value.id)
  }

  predicate Siblings(xs: seq<Value>) {
    forall i, j :: 0 <= i < j < |xs| ==> Identity(xs[i]) != Identity(xs[j])
  }

  ghost predicate GoodList(xs: seq<Value>, rels: set<string>, ty: int -> nat) {
    Siblings(xs) && forall i :: 0 <= i < |xs| ==> Named(xs[i], ty) && Good(xs[i], rels, ty)
  }

  lemma {:induction false} NamedId(v: Value, ty: int -> nat, id: int)
    requires Named(v, ty)
    ensures HasId(v, id) <==> Identity(v) == Some(Key(id, ty(id)))
  {}

  lemma {:induction false} FindIdIsFindFirst(xs: seq<Value>, ty: int -> nat, id: int)
    requires forall i :: 0 <= i < |xs| ==> Named(xs[i], ty)
    ensures FindId(xs, id) == FindFirst(xs, Key(id, ty(id)))
  {
    forall i | 0 <= i < |xs| ensures HasId(xs[i], id) <==> Identity(xs[i]) == Some(Key(id, ty(id))) {
      NamedId(xs[i], ty, id);
    }
  }

  // ---- merging two trees

  /** The fields of one node laid over those of another: the first wins, and the
      second adds no metadata. */
  function Overlay(a: map<string, Value>, b: map<string, Value>): (r: map<string, Value>) {
    map k | k in a.Keys + b.Keys && (k in a || !Meta(k)) :: if k in a then a[k] else b[k]
  }

  function Over(a: Option<map<string, Value>>, b: Option<map<string, Value>>): (r: Option<map<string, Value>>) {
    if a.None? then b else if b.None? then a else Some(Overlay(a.value, b.value))
  }

  lemma {:induction false} MergeTreesGood(t: Value, s: Value, rels: set<string>, ty: int -> nat)
    requires PlainRels(rels) && Good(t, rels, ty) && Good(s, rels, ty)
    ensures Good(MergeTrees(t, s), rels, ty)
    decreases s, 1
  {
    var r := MergeTrees(t, s);
    forall k | k in r.fields && k in rels
      ensures r.fields[k].Lst? && r.fields[k].items != [] && GoodList(r.fields[k].items, rels, ty)
    {
      if SharedList(t, s, k) {
        assert !Meta(k);
        MergeListsGood(t.fields[k].items, s.fields[k].items, rels, ty);
        MergeListsKeepsIdentities(t.fields[k].items, s.fields[k].items);
      }
    }
  }

  lemma {:induction false} MergeItemGood(xs: seq<Value>, y: Value, rels: set<string>, ty: int -> nat)
    requires GoodList(xs, rels, ty) && Named(y, ty) && Good(y, rels, ty)
    requires Target(xs, y) < |xs| ==> Good(MergeTrees(xs[Target(xs, y)], y), rels, ty)
    ensures GoodList(MergeItem(xs, y), rels, ty)
  {
    MergeItemKeepsIdentities(xs, y);
  }

  lemma {:induction false} MergeListsGood(xs: seq<Value>, ys: seq<Value>, rels: set<string>, ty: int -> nat)
    requires PlainRels(rels) && GoodList(xs, rels, ty)
    requires forall i :: 0 <= i < |ys| ==> Named(ys[i], ty) && Good(ys[i], rels, ty)
    ensures GoodList(MergeLists(xs, ys), rels, ty)
    decreases ys, 0
  {
    if ys != [] {
      var j := Target(xs, ys[0]);
      if j < |xs| { MergeTreesGood(xs[j], ys[0], rels, ty); }
      MergeItemGood(xs, ys[0], rels, ty);
      MergeListsGood(MergeItem(xs, ys[0]), ys[1..], rels, ty);
    }
  }

  /** The merge holds, at every walk, the fields of the first tree over those of
      the second. */
  lemma {:induction false} MergeTreesAt(t: Value, s: Value, rels: set<string>, ty: int -> nat, w: Walk)
    requires PlainRels(rels) && Good(t, rels, ty) && Good(s, rels, ty)
    ensures At(MergeTrees(t, s), rels, w) == Over(At(t, rels, w), At(s, rels, w))
    decreases s, 1
  {
    if w == [] {
      FieldsMerge(t, s, rels, ty);
    } else if w[0].rel in rels && w[0].rel in t.fields && w[0].rel in s.fields {
      var k := w[0].rel;
      assert SharedList(t, s, k);
      MergeListsAt(t.fields[k].items, s.fields[k].items, rels, ty, w[0].id, w[1..]);
    }
  }

  lemma {:induction false} FieldsMerge(t: Value, s: Value, rels: set<string>, ty: int -> nat)
    requires Good(t, rels, ty) && Good(s, rels, ty)
    ensures MergeTrees(t, s).fields - rels == Overlay(t.fields - rels, s.fields - rels)
  {
    var r, o := MergeTrees(t, s).fields - rels, Overlay(t.fields - rels, s.fields - rels);
    forall k ensures k in r <==> k in o {}
    forall k | k in r ensures r[k] == o[k] {}
  }

  /** One new item: what the list holds below an id afterwards. */
  lemma {:induction false} MergeItemAt(xs: seq<Value>, y: Value, rels: set<string>, ty: int -> nat, id: int, w: Walk)
    requires PlainRels(rels) && GoodList(xs, rels, ty) && Named(y, ty) && Good(y, rels, ty)
    ensures AtList(MergeItem(xs, y), rels, id, w) == Over(AtList(xs, rels, id, w), AtList([y], rels, id, w))
    decreases y, 2
  {
    var j, zs := Target(xs, y), MergeItem(xs, y);
    var mine := Identity(y).value.id;
    if j < |xs| { MergeTreesGood(xs[j], y, rels, ty); }
    MergeItemGood(xs, y, rels, ty);
    FindIdIsFindFirst(xs, ty, id);
    FindIdIsFindFirst(zs, ty, id);
    FindIdIsFindFirst(xs, ty, mine);
    NamedId(y, ty, id);
    NamedId(y, ty, mine);
    if j < |xs| {
      MergeItemKeepsIdentities(xs, y);
      assert FindFirst(zs, Key(id, ty(id))) == FindFirst(xs, Key(id, ty(id))) by {
        SameIdentitiesSameFind(xs, zs, Key(id, ty(id)));
      }
      if id == mine { MergeTreesAt(xs[j], y, rels, ty, w); }
    } else {
      FindFirstAppend(xs, y, Key(id, ty(id)));
    }
  }

  lemma {:induction false} SameIdentitiesSameFind(xs: seq<Value>, ys: seq<Value>, key: Key)
    requires |xs| == |ys| && forall i :: 0 <= i < |xs| ==> Identity(xs[i]) == Identity(ys[i])
    ensures FindFirst(xs, key) == FindFirst(ys, key)
  {
    if xs != [] { SameIdentitiesSameFind(xs[1..], ys[1..], key); }
  }

  lemma {:induction false} FindFirstAppend(xs: seq<Value>, y: Value, key: Key)
    ensures var j := FindFirst(xs, key);
            FindFirst(xs + [y], key) ==
            if j < |xs| then j else if Identity(y) == Some(key) then |xs| else |xs| + 1
  {
    if xs != [] {
      FindFirstAppend(xs[1..], y, key);
      assert (xs + [y])[1..] == xs[1..] + [y];
    }
  }

  /** Siblings do not share an id, so a list holds below an id what its first
      item holds there, or else what the other items do, and never both. */
  lemma {:induction false} HeadOrRest(ys: seq<Value>, rels: set<string>, ty: int -> nat, id: int, w: Walk)
    requires ys != [] && GoodList(ys, rels, ty)
    ensures AtList(ys, rels, id, w) == Over(AtList([ys[0]], rels, id, w), AtList(ys[1..], rels, id, w))
    ensures AtList([ys[0]], rels, id, w).None? || AtList(ys[1..], rels, id, w).None?
  {
    var y, rest := ys[0], ys[1..];
    NamedId(y, ty, id);
    var j := FindId(rest, id);
    if j < |rest| {
      assert rest[j] == ys[j + 1];
      NamedId(rest[j], ty, id);
    }
    assert FindId([y], id) == if HasId(y, id) then 0 else 1;
  }

  lemma {:induction false} MergeListsAt(xs: seq<Value>, ys: seq<Value>, rels: set<string>, ty: int -> nat, id: int,
      w: Walk)
    requires PlainRels(rels) && GoodList(xs, rels, ty) && GoodList(ys, rels, ty)
    ensures AtList(MergeLists(xs, ys), rels, id, w) == Over(AtList(xs, rels, id, w), AtList(ys, rels, id, w))
    decreases ys, 0
  {
    if ys != [] {
      var y, rest, zs := ys[0], ys[1..], MergeItem(xs, ys[0]);
      MergeItemAt(xs, y, rels, ty, id, w);
      if Target(xs, y) < |xs| { MergeTreesGood(xs[Target(xs, y)], y, rels, ty); }
      MergeItemGood(xs, y, rels, ty);
      MergeListsAt(zs, rest, rels, ty, id, w);
      HeadOrRest(ys, rels, ty, id, w);
    }
  }

  // ---- paths over one snapshot

  /** What the vertex ids of a database snapshot stand for. */
  datatype Snapshot = Snapshot(vertex: int -> Vertex)

  /** The path's vertices are the snapshot's, its properties are not lists, and
      every vertex but the first has a label that is its `_type`. */
  predicate Drawn(p: Path, snap: Snapshot, cfg: Config) {
    && p.node == snap.vertex(p.node.id)
    && NoLists(NodeProps(p.node, cfg))
    && (p.Hop? ==>
          && NoLists(EdgeFields(p.edge, cfg))
          && p.rest.node.labels != [] && "_type" !in NodeProps(p.rest.node, cfg)
          && Drawn(p.rest, snap, cfg))
  }

  function TypeOfId(snap: Snapshot, id: int): (h: nat) {
    var labels := snap.vertex(id).labels;
    if labels == [] || TypeHash(TypeValue(labels)).None? then 0 else TypeHash(TypeValue(labels)).value
  }

  function TypeOf(snap: Snapshot): (ty: int -> nat) {
    (id: int) => TypeOfId(snap, id)
  }

  /** The fields a path shows at the end of a walk along it: the node's own, and
      those of the edge the path takes into it. */
  function Shown(p: Path, cfg: Config, into: map<string, Value>, w: Walk): (m: map<string, Value>) {
    if w == [] || p.Stop? then into + NodeMap(p.node, cfg)
    else Shown(p.rest, cfg, EdgeFields(p.edge, cfg), w[1..])
  }

  /** A path's tree with the fields `into` of an incoming edge added. */
  ghost function WithInto(p: Path, cfg: Config, into: map<string, Value>): (v: Value) {
    Obj(into + Build(p, cfg).fields)
  }

  /** A node with the fields `m`, those of the edge into it, and at most one
      relationship list, of one child. */
  ghost function Link(m: map<string, Value>, into: map<string, Value>, k: string, below: Option<Value>): (v: Value) {
    Obj(into + if below.Some? then m[k := Lst([below.value])] else m)
  }

  ghost predicate Linkable(m: map<string, Value>, into: map<string, Value>, k: string, below: Option<Value>,
      rels: set<string>) {
    m.Keys !! rels && into.Keys !! rels && (below.Some? ==> k in rels)
  }

  lemma {:induction false} AtLink(m: map<string, Value>, into: map<string, Value>, k: string, below: Option<Value>,
      rels: set<string>, w: Walk)
    requires Linkable(m, into, k, below, rels)
    ensures At(Link(m, into, k, below), rels, w) ==
            if w == [] then Some(into + m)
            else if below.Some? && w[0].rel == k && HasId(below.value, w[0].id) then At(below.value, rels, w[1..])
            else None
  {
    var v := Link(m, into, k, below);
    if w == [] {
      assert v.fields - rels == into + m;
    } else if below.Some? {
      assert FindId([below.value], w[0].id) == if HasId(below.value, w[0].id) then 0 else 1;
    }
  }

  ghost function Below(p: Path, cfg: Config): (b: Option<Value>) {
    if p.Hop? then Some(WithInto(p.rest, cfg, EdgeFields(p.edge, cfg))) else None
  }

  ghost function BelowKey(p: Path, cfg: Config): (k: string) {
    if p.Hop? then RelKey(p.edge, cfg) else ""
  }

  /** A path's tree in these terms. */
  lemma {:induction false} TreeIsLink(p: Path, cfg: Config, rels: set<string>, into: map<string, Value>)
    requires PlainRels(rels) && Clean(p, cfg, rels) && into.Keys !! rels
    ensures WithInto(p, cfg, into) == Link(NodeMap(p.node, cfg), into, BelowKey(p, cfg), Below(p, cfg))
    ensures Linkable(NodeMap(p.node, cfg), into, BelowKey(p, cfg), Below(p, cfg), rels)
    ensures p.Hop? ==> HasId(Below(p, cfg).value, p.rest.node.id)
  {
    NodeMapClean(p.node, cfg, rels);
    if p.Hop? {
      CleanIsTidy(p, cfg, rels);
      BuildTree(p, cfg, rels, NoneTaken());
      assert Child(p.edge, p.rest, cfg) == WithInto(p.rest, cfg, EdgeFields(p.edge, cfg));
    }
  }

  lemma {:induction false} BuildAt(p: Path, cfg: Config, rels: set<string>, into: map<string, Value>, w: Walk)
    requires PlainRels(rels) && Clean(p, cfg, rels) && into.Keys !! rels
    ensures At(WithInto(p, cfg, into), rels, w) ==
            if w <= PathWalk(p, cfg) then Some(Shown(p, cfg, into, w)) else None
  {
    TreeIsLink(p, cfg, rels, into);
    AtLink(NodeMap(p.node, cfg), into, BelowKey(p, cfg), Below(p, cfg), rels, w);
    if w != [] && p.Hop? {
      BuildAt(p.rest, cfg, rels, EdgeFields(p.edge, cfg), w[1..]);
      PrefixTail(w, PathWalk(p, cfg));
    }
  }

  lemma {:induction false} NoInto(p: Path, cfg: Config)
    ensures WithInto(p, cfg, map[]) == Build(p, cfg)
  {
    var m := Build(p, cfg).fields;
    assert map[] + m == m;
  }

  lemma {:induction false} BuildAtRoot(p: Path, cfg: Config, rels: set<string>, w: Walk)
    requires PlainRels(rels) && Clean(p, cfg, rels)
    ensures At(Build(p, cfg), rels, w) == PathAt(p, cfg, w)
  {
    NoInto(p, cfg);
    BuildAt(p, cfg, rels, map[], w);
  }

  lemma {:induction false} NodeFlat(v: Vertex, cfg: Config)
    requires NoLists(NodeProps(v, cfg))
    ensures forall k :: k in NodeMap(v, cfg) && !Meta(k) ==> !NodeMap(v, cfg)[k].Lst?
  {}

  lemma {:induction false} NodeNamed(m: map<string, Value>, v: Vertex, snap: Snapshot)
    requires v == snap.vertex(v.id) && v.labels != []
    requires "_id" in m && m["_id"] == Int(v.id) && "_type" in m && m["_type"] == TypeValue(v.labels)
    ensures Named(Obj(m), TypeOf(snap))
  {
    if |v.labels| > 1 { assert AllStrings(TypeValue(v.labels).items); }
  }

  lemma {:induction false} BuildGood(p: Path, snap: Snapshot, cfg: Config, rels: set<string>, into: map<string, Value>)
    requires PlainRels(rels) && Clean(p, cfg, rels) && Drawn(p, snap, cfg)
    requires into.Keys !! rels && NoLists(into)
    ensures Good(WithInto(p, cfg, into), rels, TypeOf(snap))
  {
    var m := NodeMap(p.node, cfg);
    NodeMapClean(p.node, cfg, rels);
    NodeFlat(p.node, cfg);
    match p
    case Stop(_) =>
      GoodStop(m, into, rels, TypeOf(snap));
      assert WithInto(p, cfg, into) == Obj(into + m);
    case Hop(_, e, rest) =>
      var sub := WithInto(rest, cfg, EdgeFields(e, cfg));
      BuildGood(rest, snap, cfg, rels, EdgeFields(e, cfg));
      ChildNamed(rest, snap, cfg, rels, EdgeFields(e, cfg));
      GoodHop(m, into, RelKey(e, cfg), sub, rels, TypeOf(snap));
      assert sub == Child(e, rest, cfg);
      assert Build(p, cfg) == Obj(InsertNew(m, RelKey(e, cfg), Lst([sub])));
  }

  lemma {:induction false} GoodStop(m: map<string, Value>, into: map<string, Value>, rels: set<string>, ty: int -> nat)
    requires m.Keys !! rels && into.Keys !! rels && NoLists(into)
    requires forall x :: x in m && !Meta(x) ==> !m[x].Lst?
    ensures Good(Obj(into + m), rels, ty)
  {}

  lemma {:induction false} ChildNamed(p: Path, snap: Snapshot, cfg: Config, rels: set<string>, into: map<string, Value>)
    requires PlainRels(rels) && Clean(p, cfg, rels) && Drawn(p, snap, cfg)
    requires p.node.labels != [] && "_type" !in NodeProps(p.node, cfg)
    ensures Named(WithInto(p, cfg, into), TypeOf(snap))
  {
    NodeMapClean(p.node, cfg, rels);
    NodeNamed(WithInto(p, cfg, into).fields, p.node, snap);
  }

  lemma {:induction false} GoodHop(m: map<string, Value>, into: map<string, Value>, k: string, sub: Value,
      rels: set<string>, ty: int -> nat)
    requires m.Keys !! rels && into.Keys !! rels && k in rels && NoLists(into)
    requires forall x :: x in m && !Meta(x) ==> !m[x].Lst?
    requires Named(sub, ty) && Good(sub, rels, ty)
    ensures Good(Obj(into + InsertNew(m, k, Lst([sub]))), rels, ty)
  {}

  /** What a path has at a walk. */
  function PathAt(p: Path, cfg: Config, w: Walk): (r: Option<map<string, Value>>) {
    if w <= PathWalk(p, cfg) then Some(Shown(p, cfg, map[], w)) else None
  }

  // ---- a whole run

  lemma {:induction false} GoodBuild(p: Path, snap: Snapshot, cfg: Config, rels: set<string>)
    requires PlainRels(rels) && Clean(p, cfg, rels) && Drawn(p, snap, cfg)
    ensures Good(Build(p, cfg), rels, TypeOf(snap))
  {
    NoInto(p, cfg);
    BuildGood(p, snap, cfg, rels, map[]);
  }

  /** Paths of one root, free of key clashes and drawn from one snapshot. */
  ghost predicate Rooted(ps: seq<Path>, root: int, snap: Snapshot, cfg: Config, rels: set<string>) {
    PlainRels(rels) && forall p :: p in ps ==> p.node.id == root && Clean(p, cfg, rels) && Drawn(p, snap, cfg)
  }

  lemma {:induction false} RootedPrefix(ps: seq<Path>, root: int, snap: Snapshot, cfg: Config, rels: set<string>,
      n: nat)
    requires n <= |ps| && Rooted(ps, root, snap, cfg, rels)
    ensures Rooted(ps[..n], root, snap, cfg, rels)
  {}

  lemma {:induction false} GroupGood(ps: seq<Path>, root: int, snap: Snapshot, cfg: Config, rels: set<string>)
    requires ps != [] && Rooted(ps, root, snap, cfg, rels)
    ensures Good(Group(ps, cfg), rels, TypeOf(snap))
  {
    var n := |ps| - 1;
    GoodBuild(ps[n], snap, cfg, rels);
    if n > 0 {
      GroupGood(ps[..n], root, snap, cfg, rels);
      MergeTreesGood(Group(ps[..n], cfg), Build(ps[n], cfg), rels, TypeOf(snap));
    }
  }

  /** What paths have at a walk: earlier paths over later ones. */
  function PathsAt(ps: seq<Path>, cfg: Config, w: Walk): (r: Option<map<string, Value>>) {
    if ps == [] then None else Over(PathsAt(ps[..|ps| - 1], cfg, w), PathAt(ps[|ps| - 1], cfg, w))
  }

  lemma {:induction false} GroupAt(ps: seq<Path>, root: int, snap: Snapshot, cfg: Config, rels: set<string>, w: Walk)
    requires ps != [] && Rooted(ps, root, snap, cfg, rels)
    ensures At(Group(ps, cfg), rels, w) == PathsAt(ps, cfg, w)
  {
    var n := |ps| - 1;
    var last := ps[n];
    assert ps == ps[..n] + [last];
    BuildAtRoot(last, cfg, rels, w);
    if n > 0 {
      RootedPrefix(ps, root, snap, cfg, rels, n);
      GroupAt(ps[..n], root, snap, cfg, rels, w);
      GroupGood(ps[..n], root, snap, cfg, rels);
      GoodBuild(last, snap, cfg, rels);
      MergeTreesAt(Group(ps[..n], cfg), Build(last, cfg), rels, TypeOf(snap), w);
    }
  }

  /** The tree of a kept root holds, at the end of every walk, the fields the paths
      show there, earlier paths over later ones, and nothing elsewhere. */
  lemma {:induction false} RunAt(ps: seq<Path>, root: int, snap: Snapshot, cfg: Config, rels: set<string>, w: Walk)
    requires Rooted(OfRoot(ps, root), root, snap, cfg, rels) && root in Roots(ps)
    ensures Good(RootTree(ps, root, cfg), rels, TypeOf(snap))
    ensures At(RootTree(ps, root, cfg), rels, w) == PathsAt(OfRoot(ps, root), cfg, w)
  {
    RootsMembers(ps, root);
    GroupGood(OfRoot(ps, root), root, snap, cfg, rels);
    GroupAt(OfRoot(ps, root), root, snap, cfg, rels, w);
  }

  // ---- equality up to the order of children

  /** The same keys and fields, and under every relationship key the same number
      of children, each with a counterpart of the same identity. */
  ghost predicate SameUpToOrder(a: Value, b: Value, rels: set<string>) {
    && a.Obj? && b.Obj? && a.fields.Keys == b.fields.Keys
    && (forall k :: k in a.fields && k !in rels ==> a.fields[k] == b.fields[k])
    && (forall k :: k in a.fields && k in rels ==>
          && a.fields[k].Lst? && b.fields[k].Lst? && |a.fields[k].items| == |b.fields[k].items|
          && forall i :: 0 <= i < |a.fields[k].items| ==> Counterpart(a.fields[k].items[i], b.fields[k].items, rels))
  }

  ghost predicate Counterpart(x: Value, ys: seq<Value>, rels: set<string>) {
    exists j :: 0 <= j < |ys| && Identity(ys[j]) == Identity(x) && SameUpToOrder(x, ys[j], rels)
  }

  ghost predicate SameAt(a: Value, b: Value, rels: set<string>) {
    forall w :: At(a, rels, w) == At(b, rels, w)
  }

  lemma {:induction false} SameKeysUnder(a: Value, b: Value, rels: set<string>, ty: int -> nat, k: string)
    requires Good(a, rels, ty) && Good(b, rels, ty) && SameAt(a, b, rels)
    requires k in rels && k in a.fields
    ensures k in b.fields
  {
    var xs := a.fields[k].items;
    var id := Identity(xs[0]).value.id;
    NamedId(xs[0], ty, id);
    var w := [Step(k, id)];
    assert FindId(xs, id) == 0;
    assert w[1..] == [];
    assert At(a, rels, w) == At(xs[0], rels, []);
    assert At(b, rels, w).Some?;
  }

  /** Below a shared relationship key the children with one id agree as well. */
  lemma {:induction false} SameBelow(a: Value, b: Value, rels: set<string>, ty: int -> nat, k: string,
      i: nat) returns (j: nat)
    requires Good(a, rels, ty) && Good(b, rels, ty) && SameAt(a, b, rels)
    requires k in rels && k in a.fields && k in b.fields && i < |a.fields[k].items|
    ensures j < |b.fields[k].items| && Identity(b.fields[k].items[j]) == Identity(a.fields[k].items[i])
    ensures SameAt(a.fields[k].items[i], b.fields[k].items[j], rels)
  {
    var xs, ys := a.fields[k].items, b.fields[k].items;
    var id := Identity(xs[i]).value.id;
    NamedId(xs[i], ty, id);
    j := FindId(ys, id);
    var f := FindId(xs, id);
    NamedId(xs[f], ty, id);
    assert f == i;
    forall w ensures At(xs[i], rels, w) == AtList(ys, rels, id, w) {
      var u := [Step(k, id)] + w;
      assert u[1..] == w;
      assert At(a, rels, u) == At(xs[i], rels, w);
      assert At(b, rels, u) == AtList(ys, rels, id, w);
    }
    assert At(xs[i], rels, []).Some?;
    NamedId(ys[j], ty, id);
  }

  lemma {:induction false} KeysOfSiblings(xs: seq<Value>, ty: int -> nat)
    requires Siblings(xs) && forall i :: 0 <= i < |xs| ==> Named(xs[i], ty)
    ensures |Keys(xs)| == |xs|
  {
    if xs != [] {
      var n := |xs| - 1;
      KeysOfSiblings(xs[..n], ty);
      KeysHold(xs[..n], Identity(xs[n]).value);
    }
  }

  lemma {:induction false} KeysIncluded(a: Value, b: Value, rels: set<string>, ty: int -> nat, k: string)
    requires Good(a, rels, ty) && Good(b, rels, ty) && SameAt(a, b, rels)
    requires k in rels && k in a.fields && k in b.fields
    ensures Keys(a.fields[k].items) <= Keys(b.fields[k].items)
  {
    var xs, ys := a.fields[k].items, b.fields[k].items;
    forall key | key in Keys(xs) ensures key in Keys(ys) {
      KeysHold(xs, key);
      var i :| 0 <= i < |xs| && Identity(xs[i]) == Some(key);
      var j := SameBelow(a, b, rels, ty, k, i);
      KeysHold(ys, key);
    }
  }

  lemma {:induction false} SameLength(a: Value, b: Value, rels: set<string>, ty: int -> nat, k: string)
    requires Good(a, rels, ty) && Good(b, rels, ty) && SameAt(a, b, rels)
    requires k in rels && k in a.fields && k in b.fields
    ensures |a.fields[k].items| == |b.fields[k].items|
  {
    KeysIncluded(a, b, rels, ty, k);
    KeysIncluded(b, a, rels, ty, k);
    KeysOfSiblings(a.fields[k].items, ty);
    KeysOfSiblings(b.fields[k].items, ty);
    assert Keys(a.fields[k].items) == Keys(b.fields[k].items);
  }

  /** Trees that hold the same at every walk differ only in the order of
      children. */
  lemma {:induction false} SameAtSameTree(a: Value, b: Value, rels: set<string>, ty: int -> nat)
    requires Good(a, rels, ty) && Good(b, rels, ty) && SameAt(a, b, rels)
    ensures SameUpToOrder(a, b, rels)
    decreases a
  {
    assert At(a, rels, []) == At(b, rels, []);
    assert a.fields - rels == b.fields - rels;
    forall k ensures k in a.fields <==> k in b.fields {
      if k in rels {
        if k in a.fields { SameKeysUnder(a, b, rels, ty, k); }
        if k in b.fields { SameKeysUnder(b, a, rels, ty, k); }
      } else {
        assert k in a.fields - rels <==> k in b.fields - rels;
      }
    }
    forall k | k in a.fields && k !in rels ensures a.fields[k] == b.fields[k] {
      assert (a.fields - rels)[k] == (b.fields - rels)[k];
    }
    forall k | k in a.fields && k in rels
      ensures |a.fields[k].items| == |b.fields[k].items|
      ensures forall i :: 0 <= i < |a.fields[k].items| ==> Counterpart(a.fields[k].items[i], b.fields[k].items, rels)
    {
      SameLength(a, b, rels, ty, k);
      forall i | 0 <= i < |a.fields[k].items| ensures Counterpart(a.fields[k].items[i], b.fields[k].items, rels) {
        var j := SameBelow(a, b, rels, ty, k, i);
        SameAtSameTree(a.fields[k].items[i], b.fields[k].items[j], rels, ty);
      }
    }
  }

  /** And trees that differ only in the order of children hold the same. */
  lemma {:induction false} SameTreeSameAt(a: Value, b: Value, rels: set<string>, ty: int -> nat, w: Walk)
    requires Good(a, rels, ty) && Good(b, rels, ty) && SameUpToOrder(a, b, rels)
    ensures At(a, rels, w) == At(b, rels, w)
    decreases |w|
  {
    if w == [] {
      assert a.fields - rels == b.fields - rels;
    } else if w[0].rel in rels && w[0].rel in a.fields {
      var xs, ys, id := a.fields[w[0].rel].items, b.fields[w[0].rel].items, w[0].id;
      SameIds(xs, ys, rels, ty, id);
      var i := FindId(xs, id);
      if i < |xs| {
        var j := FindCounterpart(xs, ys, rels, ty, i, id);
        SameTreeSameAt(xs[i], ys[j], rels, ty, w[1..]);
      }
    }
  }

  lemma {:induction false} FindCounterpart(xs: seq<Value>, ys: seq<Value>, rels: set<string>, ty: int -> nat, i: nat,
      id: int)
    returns (j: nat)
    requires GoodList(xs, rels, ty) && GoodList(ys, rels, ty) && i < |xs| && HasId(xs[i], id)
    requires Counterpart(xs[i], ys, rels)
    ensures j == FindId(ys, id) < |ys| && SameUpToOrder(xs[i], ys[j], rels)
  {
    j :| 0 <= j < |ys| && Identity(ys[j]) == Identity(xs[i]) && SameUpToOrder(xs[i], ys[j], rels);
    NamedId(xs[i], ty, id);
    NamedId(ys[j], ty, id);
    var f := FindId(ys, id);
    NamedId(ys[f], ty, id);
    assert f == j;
  }

  /** Equally many children, each with a counterpart, have the same ids. */
  lemma {:induction false} SameIds(xs: seq<Value>, ys: seq<Value>, rels: set<string>, ty: int -> nat, id: int)
    requires GoodList(xs, rels, ty) && GoodList(ys, rels, ty) && |xs| == |ys|
    requires forall i :: 0 <= i < |xs| ==> Counterpart(xs[i], ys, rels)
    ensures FindId(xs, id) < |xs| <==> FindId(ys, id) < |ys|
  {
    assert Keys(xs) == Keys(ys) by { SameKeySets(xs, ys, rels, ty); }
    FindIdIsFindFirst(xs, ty, id);
    FindIdIsFindFirst(ys, ty, id);
    KeysHold(xs, Key(id, ty(id)));
    KeysHold(ys, Key(id, ty(id)));
  }

  lemma {:induction false} SameKeySets(xs: seq<Value>, ys: seq<Value>, rels: set<string>, ty: int -> nat)
    requires GoodList(xs, rels, ty) && GoodList(ys, rels, ty) && |xs| == |ys|
    requires forall i :: 0 <= i < |xs| ==> Counterpart(xs[i], ys, rels)
    ensures Keys(xs) == Keys(ys)
  {
    forall key | key in Keys(xs) ensures key in Keys(ys) {
      KeysHold(xs, key);
      var i :| 0 <= i < |xs| && Identity(xs[i]) == Some(key);
      assert Counterpart(xs[i], ys, rels);
      KeysHold(ys, key);
    }
    KeysOfSiblings(xs, ty);
    KeysOfSiblings(ys, ty);
    SubsetSize(Keys(xs), Keys(ys));
  }

  // ---- the laws of merging

  /** Different values under one key. */
  ghost predicate Clash(a: map<string, Value>, b: map<string, Value>) {
    exists k :: k in a && k in b && a[k] != b[k]
  }

  /** Where both trees have a walk, the nodes there do not clash and have the same
      metadata keys. */
  ghost predicate Compatible(t: Value, s: Value, rels: set<string>) {
    forall w :: At(t, rels, w).Some? && At(s, rels, w).Some? ==> Alike(At(t, rels, w).value, At(s, rels, w).value)
  }

  ghost predicate Alike(a: map<string, Value>, b: map<string, Value>) {
    !Clash(a, b) && forall k :: Meta(k) ==> (k in a <==> k in b)
  }

  lemma {:induction false} OverlayCommutesIff(a: map<string, Value>, b: map<string, Value>)
    ensures Overlay(a, b) == Overlay(b, a) <==> Alike(a, b)
  {
    var ab, ba := Overlay(a, b), Overlay(b, a);
    if ab == ba {
      forall k | k in a && k in b ensures a[k] == b[k] { assert ab[k] == a[k] && ba[k] == b[k]; }
      forall k | Meta(k) ensures k in a <==> k in b { assert (k in ab <==> k in a) && (k in ba <==> k in b); }
    }
  }

  /** Up to the order of children merging is associative and idempotent, and it is
      commutative exactly on compatible trees. */
  lemma {:induction false} MergeLaws(t: Value, s: Value, u: Value, rels: set<string>, ty: int -> nat)
    requires PlainRels(rels) && Good(t, rels, ty) && Good(s, rels, ty) && Good(u, rels, ty)
    ensures SameUpToOrder(MergeTrees(MergeTrees(t, s), u), MergeTrees(t, MergeTrees(s, u)), rels)
    ensures SameUpToOrder(MergeTrees(t, t), t, rels)
    ensures SameUpToOrder(MergeTrees(t, s), MergeTrees(s, t), rels) <==> Compatible(t, s, rels)
  {
    MergeAssociates(t, s, u, rels, ty);
    MergeTreesGood(t, t, rels, ty);
    forall w ensures At(MergeTrees(t, t), rels, w) == At(t, rels, w) {
      MergeTreesAt(t, t, rels, ty, w);
      if At(t, rels, w).Some? { OverlaySelf(At(t, rels, w).value); }
    }
    SameAtSameTree(MergeTrees(t, t), t, rels, ty);
    MergeCommutesIff(t, s, rels, ty);
  }

  lemma {:induction false} OverlaySelf(a: map<string, Value>)
    ensures Overlay(a, a) == a
  {}

  lemma {:induction false} OverAssociates(a: Option<map<string, Value>>, b: Option<map<string, Value>>,
      c: Option<map<string, Value>>)
    ensures Over(Over(a, b), c) == Over(a, Over(b, c))
  {
    if a.Some? && b.Some? && c.Some? {
      assert Overlay(Overlay(a.value, b.value), c.value) == Overlay(a.value, Overlay(b.value, c.value));
    }
  }

  lemma {:induction false} MergeAssociates(t: Value, s: Value, u: Value, rels: set<string>, ty: int -> nat)
    requires PlainRels(rels) && Good(t, rels, ty) && Good(s, rels, ty) && Good(u, rels, ty)
    ensures SameUpToOrder(MergeTrees(MergeTrees(t, s), u), MergeTrees(t, MergeTrees(s, u)), rels)
  {
    var ts, su := MergeTrees(t, s), MergeTrees(s, u);
    MergeTreesGood(t, s, rels, ty);
    MergeTreesGood(s, u, rels, ty);
    MergeTreesGood(ts, u, rels, ty);
    MergeTreesGood(t, su, rels, ty);
    forall w ensures At(MergeTrees(ts, u), rels, w) == At(MergeTrees(t, su), rels, w) {
      MergeTreesAt(t, s, rels, ty, w);
      MergeTreesAt(s, u, rels, ty, w);
      MergeTreesAt(ts, u, rels, ty, w);
      MergeTreesAt(t, su, rels, ty, w);
      OverAssociates(At(t, rels, w), At(s, rels, w), At(u, rels, w));
    }
    SameAtSameTree(MergeTrees(ts, u), MergeTrees(t, su), rels, ty);
  }

  lemma {:induction false} MergeCommutesIff(t: Value, s: Value, rels: set<string>, ty: int -> nat)
    requires PlainRels(rels) && Good(t, rels, ty) && Good(s, rels, ty)
    ensures SameUpToOrder(MergeTrees(t, s), MergeTrees(s, t), rels) <==> Compatible(t, s, rels)
  {
    var ts, st := MergeTrees(t, s), MergeTrees(s, t);
    MergeTreesGood(t, s, rels, ty);
    MergeTreesGood(s, t, rels, ty);
    forall w
      ensures At(ts, rels, w) == Over(At(t, rels, w), At(s, rels, w))
      ensures At(st, rels, w) == Over(At(s, rels, w), At(t, rels, w))
      ensures SameUpToOrder(ts, st, rels) ==> At(ts, rels, w) == At(st, rels, w)
    {
      MergeTreesAt(t, s, rels, ty, w);
      MergeTreesAt(s, t, rels, ty, w);
      if SameUpToOrder(ts, st, rels) { SameTreeSameAt(ts, st, rels, ty, w); }
    }
    forall w | At(t, rels, w).Some? && At(s, rels, w).Some?
      ensures At(ts, rels, w) == At(st, rels, w) <==> Alike(At(t, rels, w).value, At(s, rels, w).value)
    {
      OverlayCommutesIff(At(t, rels, w).value, At(s, rels, w).value);
    }
    if Compatible(t, s, rels) { SameAtSameTree(ts, st, rels, ty); }
  }
}
