/** Children appear in the order in which the input paths first mention them,
    and no two siblings share an identity, at every depth of a result tree. */
module SiblingOrder {
  import opened Options
  import opened BucketTable
  import opened TreeValues
  import opened Merge
  import opened PathTrees
  import opened ToTree
  import opened OrderFree

  // ---- siblings stay distinct, whatever is merged in

  /** No two items with an identity share it, in any relationship list at any
      depth.  Items without identity are never matched and do not count. */
  predicate DistinctAll(v: Value, rels: set<string>) {
    v.Obj? ==>
      forall k :: k in v.fields && k in rels && v.fields[k].Lst? ==>
        NoTwins(v.fields[k].items) &&
        forall i :: 0 <= i < |v.fields[k].items| ==> DistinctAll(v.fields[k].items[i], rels)
  }

  predicate NoTwins(xs: seq<Value>) {
    forall i, j :: 0 <= i < j < |xs| && Identity(xs[i]).Some? ==> Identity(xs[i]) != Identity(xs[j])
  }

  ghost predicate DistinctList(xs: seq<Value>, rels: set<string>) {
    NoTwins(xs) && forall i :: 0 <= i < |xs| ==> DistinctAll(xs[i], rels)
  }

  lemma {:induction false} MergeKeepsDistinct(t: Value, s: Value, rels: set<string>)
    requires t.Obj? && s.Obj? && DistinctAll(t, rels) && DistinctAll(s, rels)
    ensures DistinctAll(MergeTrees(t, s), rels)
    decreases s, 1
  {
    var r := MergeTrees(t, s);
    forall k | k in r.fields && k in rels && r.fields[k].Lst? ensures DistinctList(r.fields[k].items, rels) {
      if SharedList(t, s, k) { MergeListsKeepDistinct(t.fields[k].items, s.fields[k].items, rels); }
    }
  }

  lemma {:induction false} MergeItemKeepsDistinct(xs: seq<Value>, y: Value, rels: set<string>)
    requires DistinctList(xs, rels) && DistinctAll(y, rels)
    requires Target(xs, y) < |xs| ==> DistinctAll(MergeTrees(xs[Target(xs, y)], y), rels)
    ensures DistinctList(MergeItem(xs, y), rels)
  {
    MergeItemKeepsIdentities(xs, y);
  }

  lemma {:induction false} MergeListsKeepDistinct(xs: seq<Value>, ys: seq<Value>, rels: set<string>)
    requires DistinctList(xs, rels) && forall i :: 0 <= i < |ys| ==> DistinctAll(ys[i], rels)
    ensures DistinctList(MergeLists(xs, ys), rels)
    decreases ys, 0
  {
    if ys != [] {
      var j := Target(xs, ys[0]);
      if j < |xs| { MergeKeepsDistinct(xs[j], ys[0], rels); }
      MergeItemKeepsDistinct(xs, ys[0], rels);
      MergeListsKeepDistinct(MergeItem(xs, ys[0]), ys[1..], rels);
    }
  }

  lemma {:induction false} BuildDistinct(p: Path, cfg: Config, rels: set<string>)
    requires PlainRels(rels) && Clean(p, cfg, rels)
    ensures DistinctAll(Build(p, cfg), rels)
  {
    NodeMapClean(p.node, cfg, rels);
    if p.Hop? {
      BuildDistinct(p.rest, cfg, rels);
      var sub, below := Child(p.edge, p.rest, cfg), Build(p.rest, cfg);
      assert forall k :: k in sub.fields && k in rels ==> k in below.fields && sub.fields[k] == below.fields[k];
      assert DistinctAll(sub, rels);
      InsertedDistinct(NodeMap(p.node, cfg), RelKey(p.edge, cfg), sub, rels);
    }
  }

  lemma {:induction false} InsertedDistinct(m: map<string, Value>, k: string, sub: Value, rels: set<string>)
    requires m.Keys !! rels && DistinctAll(sub, rels)
    ensures DistinctAll(Obj(InsertNew(m, k, Lst([sub]))), rels)
  {}

  /** In every run, labelled nodes or not, no two siblings of a result tree share
      an identity. */
  lemma {:induction false} RunKeepsDistinct(ps: seq<Path>, cfg: Config, rels: set<string>)
    requires ps != [] && PlainRels(rels) && forall p :: p in ps ==> Clean(p, cfg, rels)
    ensures DistinctAll(Group(ps, cfg), rels)
  {
    var n := |ps| - 1;
    BuildDistinct(ps[n], cfg, rels);
    if n > 0 {
      RunKeepsDistinct(ps[..n], cfg, rels);
      MergeKeepsDistinct(Group(ps[..n], cfg), Build(ps[n], cfg), rels);
    }
  }

  // ---- and come in the order of first appearance

  function AppendNew(xs: seq<int>, ys: seq<int>): (r: seq<int>)
    decreases |ys|
  {
    if ys == [] then xs else AppendNew(if ys[0] in xs then xs else xs + [ys[0]], ys[1..])
  }

  /** The id of a list item with an identity. */
  function IdOf(v: Value): (id: int) {
    if Identity(v).Some? then Identity(v).value.id else 0
  }

  function Ids(xs: seq<Value>): (r: seq<int>)
    ensures |r| == |xs| && forall i :: 0 <= i < |xs| ==> r[i] == IdOf(xs[i])
  {
    seq(|xs|, i requires 0 <= i < |xs| => IdOf(xs[i]))
  }

  /** The ids of the children, in order, of the node a walk leads to. */
  function Children(v: Value, rels: set<string>, w: Walk, k: string): (r: seq<int>)
    decreases |w|, 1
  {
    if !v.Obj? then []
    else if w == [] then
      if k in rels && k in v.fields && v.fields[k].Lst? then Ids(v.fields[k].items) else []
    else if w[0].rel in rels && w[0].rel in v.fields && v.fields[w[0].rel].Lst? then
      ListChildren(v.fields[w[0].rel].items, rels, w[0].id, w[1..], k)
    else []
  }

  function ListChildren(xs: seq<Value>, rels: set<string>, id: int, w: Walk, k: string): (r: seq<int>)
    decreases |w|, 2
  {
    var j := FindId(xs, id);
    if j < |xs| then Children(xs[j], rels, w, k) else []
  }

  lemma {:induction false} IdAmong(xs: seq<Value>, ty: int -> nat, id: int)
    requires forall i :: 0 <= i < |xs| ==> Named(xs[i], ty)
    ensures id in Ids(xs) <==> exists j :: 0 <= j < |xs| && HasId(xs[j], id)
  {
    forall j | 0 <= j < |xs| ensures HasId(xs[j], id) <==> Ids(xs)[j] == id { NamedId(xs[j], ty, id); }
  }

  lemma {:induction false} OneWithId(xs: seq<Value>, ty: int -> nat, id: int, i: nat)
    requires Siblings(xs) && (forall j :: 0 <= j < |xs| ==> Named(xs[j], ty)) && i < |xs| && HasId(xs[i], id)
    ensures i == FindId(xs, id)
  {
    var j := FindId(xs, id);
    NamedId(xs[i], ty, id);
    NamedId(xs[j], ty, id);
  }

  lemma {:induction false} LastStep(xs: seq<Value>, rels: set<string>, u: Walk)
    requires u != [] && u[1..] == []
    ensures ListHasWalk(xs, rels, u) <==> exists j :: 0 <= j < |xs| && HasId(xs[j], u[0].id)
  {
    forall j | 0 <= j < |xs| ensures HasWalk(xs[j], rels, u[1..]) {}
  }

  /** The children at a walk are the steps by which it goes on. */
  lemma {:induction false} ChildrenMean(v: Value, rels: set<string>, ty: int -> nat, w: Walk, k: string, id: int)
    requires Good(v, rels, ty)
    ensures id in Children(v, rels, w, k) <==> HasWalk(v, rels, w + [Step(k, id)])
    decreases |w|, 1
  {
    var u := w + [Step(k, id)];
    if w == [] {
      assert u[0] == Step(k, id) && u[1..] == [];
      if k in rels && k in v.fields {
        IdAmong(v.fields[k].items, ty, id);
        LastStep(v.fields[k].items, rels, u);
      }
    } else {
      assert u[0] == w[0];
      if w[0].rel in rels && w[0].rel in v.fields { ListChildrenMean(v.fields[w[0].rel].items, rels, ty, w, k, id); }
    }
  }

  lemma {:induction false} ListChildrenMean(xs: seq<Value>, rels: set<string>, ty: int -> nat, w: Walk, k: string,
      id: int)
    requires w != [] && GoodList(xs, rels, ty)
    ensures id in ListChildren(xs, rels, w[0].id, w[1..], k) <==> ListHasWalk(xs, rels, w + [Step(k, id)])
    decreases |w|, 0
  {
    var u, j := w + [Step(k, id)], FindId(xs, w[0].id);
    assert u[0] == w[0] && u[1..] == w[1..] + [Step(k, id)];
    if j < |xs| {
      ChildrenMean(xs[j], rels, ty, w[1..], k, id);
      forall i | 0 <= i < |xs| && HasId(xs[i], w[0].id) ensures i == j { OneWithId(xs, ty, w[0].id, i); }
    }
  }

  lemma {:induction false} IdsAfterItem(xs: seq<Value>, y: Value, ty: int -> nat)
    requires Named(y, ty) && forall i :: 0 <= i < |xs| ==> Named(xs[i], ty)
    ensures Ids(MergeItem(xs, y)) == if IdOf(y) in Ids(xs) then Ids(xs) else Ids(xs) + [IdOf(y)]
  {
    MergeItemKeepsIdentities(xs, y);
    var j := Target(xs, y);
    if j < |xs| {
      assert Ids(xs)[j] == IdOf(y);
    } else {
      assert forall i :: 0 <= i < |xs| ==> IdOf(xs[i]) != IdOf(y);
    }
  }

  lemma {:induction false} IdsAfterMerge(xs: seq<Value>, ys: seq<Value>, ty: int -> nat)
    requires forall i :: 0 <= i < |xs| ==> Named(xs[i], ty)
    requires forall i :: 0 <= i < |ys| ==> Named(ys[i], ty)
    ensures Ids(MergeLists(xs, ys)) == AppendNew(Ids(xs), Ids(ys))
    decreases |ys|
  {
    if ys != [] {
      IdsAfterItem(xs, ys[0], ty);
      MergeItemKeepsIdentities(xs, ys[0]);
      IdsAfterMerge(MergeItem(xs, ys[0]), ys[1..], ty);
      assert Ids(ys)[1..] == Ids(ys[1..]);
    }
  }

  lemma {:induction false} AppendNothing(xs: seq<int>, ys: seq<int>)
    requires forall i :: 0 <= i < |ys| ==> ys[i] !in xs
    requires forall i, j :: 0 <= i < j < |ys| ==> ys[i] != ys[j]
    ensures AppendNew(xs, ys) == xs + ys
    decreases |ys|
  {
    if ys == [] {
      assert xs + ys == xs;
    } else {
      AppendNothing(xs + [ys[0]], ys[1..]);
      assert xs + [ys[0]] + ys[1..] == xs + ys;
    }
  }

  /** A node only the source has brings its children along unchanged. */
  lemma {:induction false} ChildrenAlone(v: Value, rels: set<string>, ty: int -> nat, w: Walk, k: string)
    requires Good(v, rels, ty)
    ensures AppendNew([], Children(v, rels, w, k)) == Children(v, rels, w, k)
    decreases |w|
  {
    if w == [] {
      if k in rels && k in v.fields {
        var ids := Ids(v.fields[k].items);
        DistinctIds(v.fields[k].items, ty);
        AppendNothing([], ids);
        assert [] + ids == ids;
      }
    } else if w[0].rel in rels && w[0].rel in v.fields {
      var xs := v.fields[w[0].rel].items;
      var j := FindId(xs, w[0].id);
      if j < |xs| { ChildrenAlone(xs[j], rels, ty, w[1..], k); }
    }
  }

  lemma {:induction false} DistinctIds(xs: seq<Value>, ty: int -> nat)
    requires Siblings(xs) && forall i :: 0 <= i < |xs| ==> Named(xs[i], ty)
    ensures forall i, j :: 0 <= i < j < |xs| ==> Ids(xs)[i] != Ids(xs)[j]
  {
    forall i, j | 0 <= i < j < |xs| ensures Ids(xs)[i] != Ids(xs)[j] {
      NamedId(xs[i], ty, IdOf(xs[i]));
      NamedId(xs[j], ty, IdOf(xs[j]));
    }
  }

  /** Merging appends, at every node, the children it does not have yet, in the
      source's order. */
  lemma {:induction false} MergeChildren(t: Value, s: Value, rels: set<string>, ty: int -> nat, w: Walk, k: string)
    requires PlainRels(rels) && Good(t, rels, ty) && Good(s, rels, ty)
    ensures Children(MergeTrees(t, s), rels, w, k) == AppendNew(Children(t, rels, w, k), Children(s, rels, w, k))
    decreases s, 1
  {
    ChildrenAlone(s, rels, ty, w, k);
    var h := if w == [] then k else w[0].rel;
    if h in rels && h in t.fields && h in s.fields {
      assert SharedList(t, s, h);
      if w == [] {
        IdsAfterMerge(t.fields[h].items, s.fields[h].items, ty);
      } else {
        MergeListsChildren(t.fields[h].items, s.fields[h].items, rels, ty, w[0].id, w[1..], k);
      }
    }
  }

  lemma {:induction false} MergeItemChildren(xs: seq<Value>, y: Value, rels: set<string>, ty: int -> nat, id: int,
      w: Walk, k: string)
    requires PlainRels(rels) && GoodList(xs, rels, ty) && Named(y, ty) && Good(y, rels, ty)
    ensures ListChildren(MergeItem(xs, y), rels, id, w, k) ==
            AppendNew(ListChildren(xs, rels, id, w, k), ListChildren([y], rels, id, w, k))
    decreases y, 2
  {
    var j, zs := Target(xs, y), MergeItem(xs, y);
    var key := Key(id, ty(id));
    if j < |xs| { MergeTreesGood(xs[j], y, rels, ty); }
    MergeItemGood(xs, y, rels, ty);
    FindIdIsFindFirst(xs, ty, id);
    FindIdIsFindFirst(zs, ty, id);
    NamedId(y, ty, id);
    assert FindId([y], id) == if HasId(y, id) then 0 else 1;
    if j < |xs| {
      MergeItemKeepsIdentities(xs, y);
      SameIdentitiesSameFind(xs, zs, key);
      if HasId(y, id) { MergeChildren(xs[j], y, rels, ty, w, k); }
    } else {
      FindFirstAppend(xs, y, key);
      if HasId(y, id) { ChildrenAlone(y, rels, ty, w, k); }
    }
  }

  lemma {:induction false} ChildrenHeadOrRest(ys: seq<Value>, rels: set<string>, ty: int -> nat, id: int, w: Walk,
      k: string)
    requires ys != [] && GoodList(ys, rels, ty)
    ensures if HasId(ys[0], id)
            then ListChildren(ys, rels, id, w, k) == ListChildren([ys[0]], rels, id, w, k) &&
                 ListChildren(ys[1..], rels, id, w, k) == []
            else ListChildren(ys, rels, id, w, k) == ListChildren(ys[1..], rels, id, w, k) &&
                 ListChildren([ys[0]], rels, id, w, k) == []
  {
    var y, rest := ys[0], ys[1..];
    NamedId(y, ty, id);
    var j := FindId(rest, id);
    if j < |rest| {
      assert rest[j] == ys[j + 1];
      NamedId(rest[j], ty, id);
    }
    assert FindId([y], id) == if HasId(y, id) then 0 else 1;
  }

  lemma {:induction false} MergeListsChildren(xs: seq<Value>, ys: seq<Value>, rels: set<string>, ty: int -> nat,
      id: int, w: Walk, k: string)
    requires PlainRels(rels) && GoodList(xs, rels, ty) && GoodList(ys, rels, ty)
    ensures ListChildren(MergeLists(xs, ys), rels, id, w, k) ==
            AppendNew(ListChildren(xs, rels, id, w, k), ListChildren(ys, rels, id, w, k))
    decreases ys, 0
  {
    if ys != [] {
      var y, zs := ys[0], MergeItem(xs, ys[0]);
      MergeItemChildren(xs, y, rels, ty, id, w, k);
      if Target(xs, y) < |xs| { MergeTreesGood(xs[Target(xs, y)], y, rels, ty); }
      MergeItemGood(xs, y, rels, ty);
      MergeListsChildren(zs, ys[1..], rels, ty, id, w, k);
      ChildrenHeadOrRest(ys, rels, ty, id, w, k);
    }
  }

  // ---- a whole run

  /** The child a path mentions at the end of the walk `w` under `k`, if any. */
  function Mentions(p: Path, cfg: Config, w: Walk, k: string): (r: seq<int>) {
    var u := PathWalk(p, cfg);
    if w <= u && |w| < |u| && u[|w|].rel == k then [u[|w|].id] else []
  }

  lemma {:induction false} MentionsBelow(p: Path, cfg: Config, w: Walk, k: string)
    requires p.Hop? && w != []
    ensures Mentions(p, cfg, w, k) ==
            if w[0] == Step(RelKey(p.edge, cfg), p.rest.node.id) then Mentions(p.rest, cfg, w[1..], k) else []
  {
    PrefixTail(w, PathWalk(p, cfg));
  }

  /** The children of a node with at most one subtree, `below`, under key `h`. */
  function ChildrenBelow(h: string, below: Option<Value>, rels: set<string>, w: Walk, k: string): (r: seq<int>) {
    if below.None? then []
    else if w == [] then if k == h then [IdOf(below.value)] else []
    else if w[0].rel == h && HasId(below.value, w[0].id) then Children(below.value, rels, w[1..], k)
    else []
  }

  lemma {:induction false} ChildrenLink(m: map<string, Value>, into: map<string, Value>, h: string,
      below: Option<Value>, rels: set<string>, w: Walk, k: string)
    requires Linkable(m, into, h, below, rels)
    ensures Children(Link(m, into, h, below), rels, w, k) == ChildrenBelow(h, below, rels, w, k)
  {
    if below.Some? {
      assert Ids([below.value]) == [IdOf(below.value)];
      if w != [] {
        assert FindId([below.value], w[0].id) == if HasId(below.value, w[0].id) then 0 else 1;
      }
    }
  }

  lemma {:induction false} BuildBelow(p: Path, cfg: Config, rels: set<string>, into: map<string, Value>, w: Walk,
      k: string)
    requires PlainRels(rels) && Clean(p, cfg, rels) && into.Keys !! rels
    ensures Children(WithInto(p, cfg, into), rels, w, k) == ChildrenBelow(BelowKey(p, cfg), Below(p, cfg), rels, w, k)
  {
    TreeIsLink(p, cfg, rels, into);
    ChildrenLink(NodeMap(p.node, cfg), into, BelowKey(p, cfg), Below(p, cfg), rels, w, k);
  }

  /** The one child of a path's first node has the second node's id. */
  lemma {:induction false} BelowId(p: Path, snap: Snapshot, cfg: Config, rels: set<string>)
    requires p.Hop? && PlainRels(rels) && Clean(p, cfg, rels) && Drawn(p, snap, cfg)
    ensures IdOf(Below(p, cfg).value) == p.rest.node.id && HasId(Below(p, cfg).value, p.rest.node.id)
  {
    var below := Below(p, cfg).value;
    assert Named(below, TypeOf(snap)) by { ChildNamed(p.rest, snap, cfg, rels, EdgeFields(p.edge, cfg)); }
    assert HasId(below, p.rest.node.id) by { TreeIsLink(p, cfg, rels, map[]); }
    IdOfNamed(below, TypeOf(snap), p.rest.node.id);
  }

  lemma {:induction false} IdOfNamed(v: Value, ty: int -> nat, id: int)
    requires Named(v, ty) && HasId(v, id)
    ensures IdOf(v) == id
  {
    NamedId(v, ty, id);
  }

  lemma {:induction false} BuildChildren(p: Path, snap: Snapshot, cfg: Config, rels: set<string>,
      into: map<string, Value>, w: Walk, k: string)
    requires PlainRels(rels) && Clean(p, cfg, rels) && Drawn(p, snap, cfg) && into.Keys !! rels
    ensures Children(WithInto(p, cfg, into), rels, w, k) == Mentions(p, cfg, w, k)
    decreases p
  {
    BuildBelow(p, cfg, rels, into, w, k);
    if p.Hop? {
      BelowId(p, snap, cfg, rels);
      if w != [] {
        MentionsBelow(p, cfg, w, k);
        BuildChildren(p.rest, snap, cfg, rels, EdgeFields(p.edge, cfg), w[1..], k);
      }
    }
  }

  lemma {:induction false} PathChildren(p: Path, snap: Snapshot, cfg: Config, rels: set<string>, w: Walk, k: string)
    requires PlainRels(rels) && Clean(p, cfg, rels) && Drawn(p, snap, cfg)
    ensures Children(Build(p, cfg), rels, w, k) == Mentions(p, cfg, w, k)
  {
    NoInto(p, cfg);
    BuildChildren(p, snap, cfg, rels, map[], w, k);
  }

  /** The ids mentioned at a place, each where it comes up first. */
  function FirstSeen(ps: seq<Path>, cfg: Config, w: Walk, k: string): (r: seq<int>) {
    if ps == [] then []
    else var n := |ps| - 1; AppendNew(FirstSeen(ps[..n], cfg, w, k), Mentions(ps[n], cfg, w, k))
  }

  lemma {:induction false} AppendNewMembers(xs: seq<int>, ys: seq<int>)
    requires forall i, j :: 0 <= i < j < |xs| ==> xs[i] != xs[j]
    ensures forall x :: x in AppendNew(xs, ys) <==> x in xs || x in ys
    ensures forall i, j :: 0 <= i < j < |AppendNew(xs, ys)| ==> AppendNew(xs, ys)[i] != AppendNew(xs, ys)[j]
    decreases |ys|
  {
    if ys != [] {
      assert ys == [ys[0]] + ys[1..];
      AppendNewMembers(if ys[0] in xs then xs else xs + [ys[0]], ys[1..]);
    }
  }

  /** `FirstSeen` lists every id some path mentions there, and lists it once. */
  lemma {:induction false} FirstSeenMembers(ps: seq<Path>, cfg: Config, w: Walk, k: string)
    ensures forall i, j :: 0 <= i < j < |FirstSeen(ps, cfg, w, k)| ==>
            FirstSeen(ps, cfg, w, k)[i] != FirstSeen(ps, cfg, w, k)[j]
    ensures forall id :: id in FirstSeen(ps, cfg, w, k) <==> exists p :: p in ps && id in Mentions(p, cfg, w, k)
  {
    if ps != [] {
      var n := |ps| - 1;
      FirstSeenMembers(ps[..n], cfg, w, k);
      AppendNewMembers(FirstSeen(ps[..n], cfg, w, k), Mentions(ps[n], cfg, w, k));
      assert ps == ps[..n] + [ps[n]];
    }
  }

  lemma {:induction false} GroupChildren(ps: seq<Path>, root: int, snap: Snapshot, cfg: Config, rels: set<string>,
      w: Walk, k: string)
    requires ps != [] && Rooted(ps, root, snap, cfg, rels)
    ensures Children(Group(ps, cfg), rels, w, k) == FirstSeen(ps, cfg, w, k)
  {
    var n := |ps| - 1;
    var s, ty := Build(ps[n], cfg), TypeOf(snap);
    assert Good(s, rels, ty) && Children(s, rels, w, k) == Mentions(ps[n], cfg, w, k) by {
      PathChildren(ps[n], snap, cfg, rels, w, k);
      GoodBuild(ps[n], snap, cfg, rels);
    }
    if n == 0 {
      assert ps[..0] == [];
      ChildrenAlone(s, rels, ty, w, k);
    } else {
      var t := Group(ps[..n], cfg);
      assert Good(t, rels, ty) && Children(t, rels, w, k) == FirstSeen(ps[..n], cfg, w, k) by {
        RootedPrefix(ps, root, snap, cfg, rels, n);
        GroupChildren(ps[..n], root, snap, cfg, rels, w, k);
        GroupGood(ps[..n], root, snap, cfg, rels);
      }
      MergeChildren(t, s, rels, ty, w, k);
      GroupStep(ps, cfg);
    }
  }

  /** In the tree of a kept root the children of every node, under every
      relationship key, are listed in the order in which the paths of that root
      first mention them. */
  lemma {:induction false} RunChildrenInOrder(ps: seq<Path>, root: int, snap: Snapshot, cfg: Config, rels: set<string>,
      w: Walk, k: string)
    requires Rooted(OfRoot(ps, root), root, snap, cfg, rels) && root in Roots(ps)
    ensures Children(RootTree(ps, root, cfg), rels, w, k) == FirstSeen(OfRoot(ps, root), cfg, w, k)
  {
    RootsMembers(ps, root);
    GroupChildren(OfRoot(ps, root), root, snap, cfg, rels, w, k);
  }
}
