/** When the order of the input paths matters.  A root's tree is the same up to
    the order of children for every order and repetition of the paths, exactly
    when any two paths that share a walk show the same fields at its end; two
    paths through parallel edges do not. */
module PathOrder {
  import opened Options
  import opened TreeValues
  import opened Merge
  import opened PathTrees
  import opened ToTree
  import opened OrderFree

  ghost predicate SameMembers(ps: seq<Path>, qs: seq<Path>) {
    forall p :: p in ps <==> p in qs
  }

  /** All runs over these paths that keep the root give it the same tree. */
  ghost predicate OrderIrrelevant(ps: seq<Path>, root: int, cfg: Config, rels: set<string>) {
    forall qs, rs :: SameMembers(ps, qs) && SameMembers(ps, rs) && root in Roots(qs) && root in Roots(rs) ==>
      SameUpToOrder(RootTree(qs, root, cfg), RootTree(rs, root, cfg), rels)
  }

  predicate Has(p: Path, cfg: Config, w: Walk) {
    w <= PathWalk(p, cfg)
  }

  /** If both paths have the walk, they do not clash at its end. */
  ghost predicate Consistent(p: Path, q: Path, cfg: Config, w: Walk) {
    Has(p, cfg, w) && Has(q, cfg, w) ==> !Clash(Shown(p, cfg, map[], w), Shown(q, cfg, map[], w))
  }

  ghost predicate AllConsistent(ps: seq<Path>, cfg: Config, w: Walk) {
    forall p, q :: p in ps && q in ps ==> Consistent(p, q, cfg, w)
  }

  // ---- metadata comes from the vertex alone

  /** The id at the end of a walk from `id`. */
  function EndId(id: int, w: Walk): (r: int)
    decreases |w|
  {
    if w == [] then id else EndId(w[0].id, w[1..])
  }

  lemma {:induction false} DotKeyPlain(rel: string, name: string)
    ensures !Meta(DotKey(rel, name))
  {
    assert DotKey(rel, name)[|rel|] == '.';
  }

  lemma {:induction false} EdgeFieldsPlain(e: Edge, cfg: Config, k: string)
    requires k in EdgeFields(e, cfg)
    ensures !Meta(k)
  {
    var rel := RelKey(e, cfg);
    if k == DotKey(rel, "_id") {
      DotKeyPlain(rel, "_id");
    } else {
      var name :| name in e.props && k == DotKey(rel, name);
      DotKeyPlain(rel, name);
    }
  }

  lemma {:induction false} ShownMeta(p: Path, snap: Snapshot, cfg: Config, into: map<string, Value>, w: Walk, k: string)
    requires Drawn(p, snap, cfg) && Has(p, cfg, w) && Meta(k) && k !in into
    ensures k in Shown(p, cfg, into, w) <==> k in NodeMap(snap.vertex(EndId(p.node.id, w)), cfg)
  {
    if w != [] && p.Hop? {
      var fields := EdgeFields(p.edge, cfg);
      PrefixTail(w, PathWalk(p, cfg));
      if k in fields { EdgeFieldsPlain(p.edge, cfg, k); }
      ShownMeta(p.rest, snap, cfg, fields, w[1..], k);
    }
  }

  lemma {:induction false} SameMeta(p: Path, q: Path, snap: Snapshot, cfg: Config, w: Walk, k: string)
    requires Drawn(p, snap, cfg) && Drawn(q, snap, cfg) && p.node.id == q.node.id
    requires Has(p, cfg, w) && Has(q, cfg, w) && Meta(k)
    ensures k in Shown(p, cfg, map[], w) <==> k in Shown(q, cfg, map[], w)
  {
    ShownMeta(p, snap, cfg, map[], w, k);
    ShownMeta(q, snap, cfg, map[], w, k);
  }

  // ---- consistent paths: everything they show, in any order

  /** `m` holds what the paths show at the walk, all of it and nothing else. */
  ghost predicate HoldsAll(m: map<string, Value>, ps: seq<Path>, cfg: Config, w: Walk) {
    HoldsEach(m, ps, cfg, w) && OnlyShown(m, ps, cfg, w)
  }

  ghost predicate HoldsEach(m: map<string, Value>, ps: seq<Path>, cfg: Config, w: Walk) {
    forall p :: p in ps && Has(p, cfg, w) ==> Within(Shown(p, cfg, map[], w), m)
  }

  ghost predicate OnlyShown(m: map<string, Value>, ps: seq<Path>, cfg: Config, w: Walk) {
    forall k :: k in m ==> SomeShows(ps, cfg, w, k)
  }

  ghost predicate Within(a: map<string, Value>, m: map<string, Value>) {
    forall k :: k in a ==> k in m && m[k] == a[k]
  }

  ghost predicate SomeShows(ps: seq<Path>, cfg: Config, w: Walk, k: string) {
    exists p :: p in ps && Has(p, cfg, w) && k in Shown(p, cfg, map[], w)
  }

  ghost predicate SomeHas(ps: seq<Path>, cfg: Config, w: Walk) {
    exists p :: p in ps && Has(p, cfg, w)
  }

  /** A consistent path adds nothing that contradicts what is held. */
  lemma {:induction false} LastAgrees(m: map<string, Value>, ps: seq<Path>, last: Path, cfg: Config, w: Walk, k: string)
    requires AllConsistent(ps + [last], cfg, w) && HoldsAll(m, ps, cfg, w) && Has(last, cfg, w)
    requires k in m && k in Shown(last, cfg, map[], w)
    ensures m[k] == Shown(last, cfg, map[], w)[k]
  {
    assert SomeShows(ps, cfg, w, k);
    var p :| p in ps && Has(p, cfg, w) && k in Shown(p, cfg, map[], w);
    assert p in ps + [last] && last in ps + [last];
    assert Consistent(p, last, cfg, w);
    assert Within(Shown(p, cfg, map[], w), m);
  }

  lemma {:induction false} MetaIsHeld(m: map<string, Value>, ps: seq<Path>, last: Path, root: int, snap: Snapshot,
      cfg: Config, rels: set<string>, w: Walk, k: string)
    requires Rooted(ps + [last], root, snap, cfg, rels) && SomeHas(ps, cfg, w) && HoldsEach(m, ps, cfg, w)
    requires Has(last, cfg, w) && k in Shown(last, cfg, map[], w) && Meta(k)
    ensures k in m
  {
    var first :| first in ps && Has(first, cfg, w);
    assert first in ps + [last] && last in ps + [last];
    SameMeta(first, last, snap, cfg, w, k);
    assert Within(Shown(first, cfg, map[], w), m);
  }

  lemma {:induction false} ShowsMore(ps: seq<Path>, last: Path, cfg: Config, w: Walk, k: string)
    requires SomeShows(ps, cfg, w, k) || (Has(last, cfg, w) && k in Shown(last, cfg, map[], w))
    ensures SomeShows(ps + [last], cfg, w, k)
  {
    if SomeShows(ps, cfg, w, k) {
      var p :| p in ps && Has(p, cfg, w) && k in Shown(p, cfg, map[], w);
      assert p in ps + [last];
    } else {
      assert last in ps + [last];
    }
  }

  lemma {:induction false} OverlayHolds(m: map<string, Value>, b: map<string, Value>)
    requires forall k :: k in m && k in b ==> m[k] == b[k]
    requires forall k :: k in b && Meta(k) ==> k in m
    ensures Within(m, Overlay(m, b)) && Within(b, Overlay(m, b))
    ensures forall k :: k in Overlay(m, b) ==> k in m || k in b
  {}

  lemma {:induction false} WithinBoth(a: map<string, Value>, m: map<string, Value>, o: map<string, Value>)
    requires Within(a, m) && Within(m, o)
    ensures Within(a, o)
  {}

  /** One more consistent path. */
  lemma {:induction false} HoldsNext(m: map<string, Value>, ps: seq<Path>, last: Path, root: int, snap: Snapshot,
      cfg: Config, rels: set<string>, w: Walk)
    requires Rooted(ps + [last], root, snap, cfg, rels) && AllConsistent(ps + [last], cfg, w)
    requires SomeHas(ps, cfg, w) && HoldsAll(m, ps, cfg, w) && Has(last, cfg, w)
    ensures HoldsAll(Overlay(m, Shown(last, cfg, map[], w)), ps + [last], cfg, w)
  {
    var b := Shown(last, cfg, map[], w);
    var o := Overlay(m, b);
    forall k | k in m && k in b ensures m[k] == b[k] { LastAgrees(m, ps, last, cfg, w, k); }
    forall k | k in b && Meta(k) ensures k in m { MetaIsHeld(m, ps, last, root, snap, cfg, rels, w, k); }
    OverlayHolds(m, b);
    ShownNext(m, o, ps, last, cfg, w);
    EachNext(m, o, ps, last, cfg, w);
  }

  lemma {:induction false} EachNext(m: map<string, Value>, o: map<string, Value>, ps: seq<Path>, last: Path,
      cfg: Config, w: Walk)
    requires HoldsEach(m, ps, cfg, w) && Within(m, o) && Within(Shown(last, cfg, map[], w), o)
    ensures HoldsEach(o, ps + [last], cfg, w)
  {
    forall p | p in ps + [last] && Has(p, cfg, w) ensures Within(Shown(p, cfg, map[], w), o) {
      if p in ps { WithinBoth(Shown(p, cfg, map[], w), m, o); }
    }
  }

  lemma {:induction false} ShownNext(m: map<string, Value>, o: map<string, Value>, ps: seq<Path>, last: Path,
      cfg: Config, w: Walk)
    requires OnlyShown(m, ps, cfg, w) && Has(last, cfg, w)
    requires forall k :: k in o ==> k in m || k in Shown(last, cfg, map[], w)
    ensures OnlyShown(o, ps + [last], cfg, w)
  {
    forall k | k in o ensures SomeShows(ps + [last], cfg, w, k) { ShowsMore(ps, last, cfg, w, k); }
  }

  lemma {:induction false} PathsAtHold(ps: seq<Path>, root: int, snap: Snapshot, cfg: Config, rels: set<string>,
      w: Walk)
    requires Rooted(ps, root, snap, cfg, rels) && AllConsistent(ps, cfg, w)
    ensures PathsAt(ps, cfg, w).Some? <==> SomeHas(ps, cfg, w)
    ensures PathsAt(ps, cfg, w).Some? ==> HoldsAll(PathsAt(ps, cfg, w).value, ps, cfg, w)
  {
    if ps != [] {
      var before, last := ps[..|ps| - 1], ps[|ps| - 1];
      assert ps == before + [last];
      PathsAtHold(before, root, snap, cfg, rels, w);
      if SomeHas(before, cfg, w) {
        var p :| p in before && Has(p, cfg, w);
        assert p in ps;
        if Has(last, cfg, w) {
          HoldsNext(PathsAt(before, cfg, w).value, before, last, root, snap, cfg, rels, w);
        } else {
          HoldsSkip(PathsAt(before, cfg, w).value, before, last, cfg, w);
        }
      } else if Has(last, cfg, w) {
        HoldsFirst(before, last, cfg, w);
      }
    }
  }

  lemma {:induction false} HoldsSkip(m: map<string, Value>, ps: seq<Path>, last: Path, cfg: Config, w: Walk)
    requires HoldsAll(m, ps, cfg, w) && !Has(last, cfg, w)
    ensures HoldsAll(m, ps + [last], cfg, w)
  {
    EachSkip(m, ps, last, cfg, w);
    ShownSkip(m, ps, last, cfg, w);
  }

  lemma {:induction false} EachSkip(m: map<string, Value>, ps: seq<Path>, last: Path, cfg: Config, w: Walk)
    requires HoldsEach(m, ps, cfg, w) && !Has(last, cfg, w)
    ensures HoldsEach(m, ps + [last], cfg, w)
  {
    forall p | p in ps + [last] && Has(p, cfg, w) ensures Within(Shown(p, cfg, map[], w), m) {
      assert p in ps || p == last;
    }
  }

  lemma {:induction false} ShownSkip(m: map<string, Value>, ps: seq<Path>, last: Path, cfg: Config, w: Walk)
    requires OnlyShown(m, ps, cfg, w)
    ensures OnlyShown(m, ps + [last], cfg, w)
  {
    forall k | k in m ensures SomeShows(ps + [last], cfg, w, k) { ShowsMore(ps, last, cfg, w, k); }
  }

  lemma {:induction false} HoldsFirst(ps: seq<Path>, last: Path, cfg: Config, w: Walk)
    requires !SomeHas(ps, cfg, w) && Has(last, cfg, w)
    ensures HoldsAll(Shown(last, cfg, map[], w), ps + [last], cfg, w)
  {
    assert last in ps + [last];
  }

  lemma {:induction false} HoldersEqual(m: map<string, Value>, n: map<string, Value>, ps: seq<Path>, qs: seq<Path>,
      cfg: Config, w: Walk)
    requires SameMembers(ps, qs) && HoldsAll(m, ps, cfg, w) && HoldsAll(n, qs, cfg, w)
    ensures Within(m, n)
  {
    forall k | k in m ensures k in n && n[k] == m[k] {
      assert SomeShows(ps, cfg, w, k);
      var p :| p in ps && Has(p, cfg, w) && k in Shown(p, cfg, map[], w);
      assert Within(Shown(p, cfg, map[], w), m) && p in qs && Within(Shown(p, cfg, map[], w), n);
    }
  }

  lemma {:induction false} SomeHasAlike(ps: seq<Path>, qs: seq<Path>, cfg: Config, w: Walk)
    requires SameMembers(ps, qs) && SomeHas(ps, cfg, w)
    ensures SomeHas(qs, cfg, w)
  {
    var p :| p in ps && Has(p, cfg, w);
    assert p in qs;
  }

  lemma {:induction false} WithinEach(m: map<string, Value>, n: map<string, Value>)
    requires Within(m, n) && Within(n, m)
    ensures m == n
  {}

  lemma {:induction false} HoldersAlike(a: Option<map<string, Value>>, b: Option<map<string, Value>>, ps: seq<Path>,
      qs: seq<Path>, cfg: Config, w: Walk)
    requires SameMembers(ps, qs) && (a.Some? <==> SomeHas(ps, cfg, w)) && (b.Some? <==> SomeHas(qs, cfg, w))
    requires a.Some? ==> HoldsAll(a.value, ps, cfg, w)
    requires b.Some? ==> HoldsAll(b.value, qs, cfg, w)
    ensures a == b
  {
    if a.Some? {
      SomeHasAlike(ps, qs, cfg, w);
      HoldersEqual(a.value, b.value, ps, qs, cfg, w);
      HoldersEqual(b.value, a.value, qs, ps, cfg, w);
      WithinEach(a.value, b.value);
    } else if b.Some? {
      SomeHasAlike(qs, ps, cfg, w);
    }
  }

  lemma {:induction false} SameMembersSameAt(ps: seq<Path>, qs: seq<Path>, root: int, snap: Snapshot, cfg: Config,
      rels: set<string>, w: Walk)
    requires SameMembers(ps, qs) && AllConsistent(ps, cfg, w) && AllConsistent(qs, cfg, w)
    requires Rooted(ps, root, snap, cfg, rels) && Rooted(qs, root, snap, cfg, rels)
    ensures PathsAt(ps, cfg, w) == PathsAt(qs, cfg, w)
  {
    PathsAtHold(ps, root, snap, cfg, rels, w);
    PathsAtHold(qs, root, snap, cfg, rels, w);
    HoldersAlike(PathsAt(ps, cfg, w), PathsAt(qs, cfg, w), ps, qs, cfg, w);
  }

  lemma {:induction false} SamePathsConsistent(ps: seq<Path>, qs: seq<Path>, root: int, snap: Snapshot, cfg: Config,
      rels: set<string>)
    requires SameMembers(ps, qs) && Rooted(OfRoot(ps, root), root, snap, cfg, rels)
    requires forall w :: AllConsistent(OfRoot(ps, root), cfg, w)
    ensures SameMembers(OfRoot(ps, root), OfRoot(qs, root))
    ensures Rooted(OfRoot(qs, root), root, snap, cfg, rels) && forall w :: AllConsistent(OfRoot(qs, root), cfg, w)
  {
    OfRootMembers(ps, root);
    OfRootMembers(qs, root);
    assert forall p :: p in OfRoot(qs, root) ==> p in OfRoot(ps, root);
    forall w ensures AllConsistent(OfRoot(qs, root), cfg, w) { assert AllConsistent(OfRoot(ps, root), cfg, w); }
  }

  /** Two runs over the same set of consistent paths, in any order and with any
      repetitions, give a root they both keep the same tree. */
  lemma {:induction false} RunsAgree(ps: seq<Path>, qs: seq<Path>, root: int, snap: Snapshot, cfg: Config,
      rels: set<string>)
    requires SameMembers(ps, qs) && Rooted(OfRoot(ps, root), root, snap, cfg, rels)
    requires forall w :: AllConsistent(OfRoot(ps, root), cfg, w)
    requires root in Roots(ps) && root in Roots(qs)
    ensures SameUpToOrder(RootTree(ps, root, cfg), RootTree(qs, root, cfg), rels)
  {
    SamePathsConsistent(ps, qs, root, snap, cfg, rels);
    forall w ensures At(RootTree(ps, root, cfg), rels, w) == At(RootTree(qs, root, cfg), rels, w) {
      RunAt(ps, root, snap, cfg, rels, w);
      RunAt(qs, root, snap, cfg, rels, w);
      SameMembersSameAt(OfRoot(ps, root), OfRoot(qs, root), root, snap, cfg, rels, w);
    }
    RunAt(ps, root, snap, cfg, rels, []);
    RunAt(qs, root, snap, cfg, rels, []);
    SameAtSameTree(RootTree(ps, root, cfg), RootTree(qs, root, cfg), rels, TypeOf(snap));
  }

  // ---- inconsistent paths: the first one wins

  lemma {:induction false} OverKeeps(a: Option<map<string, Value>>, b: Option<map<string, Value>>,
      m: map<string, Value>)
    requires a.Some? && Within(m, a.value)
    ensures Over(a, b).Some? && Within(m, Over(a, b).value)
  {}

  lemma {:induction false} FirstWins(p: Path, ps: seq<Path>, cfg: Config, w: Walk)
    requires Has(p, cfg, w)
    ensures var r := PathsAt([p] + ps, cfg, w); r.Some? && Within(Shown(p, cfg, map[], w), r.value)
  {
    var all := [p] + ps;
    if ps == [] {
      assert all[..0] == [];
    } else {
      var before, last := ps[..|ps| - 1], ps[|ps| - 1];
      FirstWins(p, before, cfg, w);
      assert all[..|all| - 1] == [p] + before && all[|all| - 1] == last;
      OverKeeps(PathsAt([p] + before, cfg, w), PathAt(last, cfg, w), Shown(p, cfg, map[], w));
    }
  }

  lemma {:induction false} OfRootFirst(p: Path, ps: seq<Path>, root: int)
    requires p.node.id == root
    ensures OfRoot([p] + ps, root) == [p] + OfRoot(ps, root)
  {
    var all := [p] + ps;
    if ps == [] {
      assert all[..0] == [];
    } else {
      OfRootFirst(p, ps[..|ps| - 1], root);
      assert all[..|all| - 1] == [p] + ps[..|ps| - 1];
    }
  }

  lemma {:induction false} FirstRootKept(p: Path, ps: seq<Path>)
    ensures p.node.id in Roots([p] + ps)
  {
    var all := [p] + ps;
    if ps == [] {
      assert all[..0] == [];
    } else {
      FirstRootKept(p, ps[..|ps| - 1]);
      assert all[..|all| - 1] == [p] + ps[..|ps| - 1];
    }
  }

  /** The tree when one of the paths is put first. */
  lemma {:induction false} PutFirst(ps: seq<Path>, p: Path, root: int, snap: Snapshot, cfg: Config, rels: set<string>,
      w: Walk)
    requires p in OfRoot(ps, root) && Rooted(OfRoot(ps, root), root, snap, cfg, rels) && Has(p, cfg, w)
    ensures SameMembers(ps, [p] + ps) && root in Roots([p] + ps)
    ensures var t := RootTree([p] + ps, root, cfg);
            && Good(t, rels, TypeOf(snap))
            && At(t, rels, w).Some? && Within(Shown(p, cfg, map[], w), At(t, rels, w).value)
  {
    OfRootMembers(ps, root);
    OfRootFirst(p, ps, root);
    FirstRootKept(p, ps);
    assert Rooted(OfRoot([p] + ps, root), root, snap, cfg, rels);
    RunAt([p] + ps, root, snap, cfg, rels, w);
    FirstWins(p, OfRoot(ps, root), cfg, w);
  }

  lemma {:induction false} HoldersDiffer(a: map<string, Value>, b: map<string, Value>, m: map<string, Value>,
      n: map<string, Value>)
    requires Within(a, m) && Within(b, n) && Clash(a, b)
    ensures m != n
  {
    var k :| k in a && k in b && a[k] != b[k];
    assert m[k] != n[k];
  }

  lemma {:induction false} FirstsDiffer(ps: seq<Path>, p: Path, q: Path, root: int, snap: Snapshot, cfg: Config,
      rels: set<string>, w: Walk)
    requires Rooted(OfRoot(ps, root), root, snap, cfg, rels) && p in OfRoot(ps, root) && q in OfRoot(ps, root)
    requires !Consistent(p, q, cfg, w)
    ensures !SameUpToOrder(RootTree([p] + ps, root, cfg), RootTree([q] + ps, root, cfg), rels)
  {
    var a, b := RootTree([p] + ps, root, cfg), RootTree([q] + ps, root, cfg);
    PutFirst(ps, p, root, snap, cfg, rels, w);
    PutFirst(ps, q, root, snap, cfg, rels, w);
    HoldersDiffer(Shown(p, cfg, map[], w), Shown(q, cfg, map[], w), At(a, rels, w).value, At(b, rels, w).value);
    DifferentAt(a, b, rels, TypeOf(snap), w);
  }

  lemma {:induction false} NotIrrelevant(ps: seq<Path>, qs: seq<Path>, rs: seq<Path>, root: int, cfg: Config,
      rels: set<string>)
    requires SameMembers(ps, qs) && SameMembers(ps, rs) && root in Roots(qs) && root in Roots(rs)
    requires !SameUpToOrder(RootTree(qs, root, cfg), RootTree(rs, root, cfg), rels)
    ensures !OrderIrrelevant(ps, root, cfg, rels)
  {}

  lemma {:induction false} ClashMatters(ps: seq<Path>, p: Path, q: Path, root: int, snap: Snapshot, cfg: Config,
      rels: set<string>, w: Walk)
    requires Rooted(OfRoot(ps, root), root, snap, cfg, rels) && p in OfRoot(ps, root) && q in OfRoot(ps, root)
    requires !Consistent(p, q, cfg, w)
    ensures !OrderIrrelevant(ps, root, cfg, rels)
  {
    FirstsDiffer(ps, p, q, root, snap, cfg, rels, w);
    OfRootMembers(ps, root);
    FirstRootKept(p, ps);
    FirstRootKept(q, ps);
    NotIrrelevant(ps, [p] + ps, [q] + ps, root, cfg, rels);
  }

  lemma {:induction false} DifferentAt(a: Value, b: Value, rels: set<string>, ty: int -> nat, w: Walk)
    requires Good(a, rels, ty) && Good(b, rels, ty) && At(a, rels, w) != At(b, rels, w)
    ensures !SameUpToOrder(a, b, rels)
  {
    if SameUpToOrder(a, b, rels) { SameTreeSameAt(a, b, rels, ty, w); }
  }

  /** The order of the paths is irrelevant exactly when they are consistent. */
  lemma {:induction false} OrderIrrelevantIff(ps: seq<Path>, root: int, snap: Snapshot, cfg: Config, rels: set<string>)
    requires Rooted(OfRoot(ps, root), root, snap, cfg, rels)
    ensures OrderIrrelevant(ps, root, cfg, rels) <==> forall w :: AllConsistent(OfRoot(ps, root), cfg, w)
  {
    if forall w :: AllConsistent(OfRoot(ps, root), cfg, w) {
      forall qs, rs | SameMembers(ps, qs) && SameMembers(ps, rs) && root in Roots(qs) && root in Roots(rs)
        ensures SameUpToOrder(RootTree(qs, root, cfg), RootTree(rs, root, cfg), rels)
      {
        SamePathsConsistent(ps, qs, root, snap, cfg, rels);
        assert SameMembers(qs, rs);
        RunsAgree(qs, rs, root, snap, cfg, rels);
      }
    } else {
      var w :| !AllConsistent(OfRoot(ps, root), cfg, w);
      var p, q :| p in OfRoot(ps, root) && q in OfRoot(ps, root) && !Consistent(p, q, cfg, w);
      ClashMatters(ps, p, q, root, snap, cfg, rels, w);
    }
  }

  // ---- consistency in terms of edges

  /** The edge a path takes into the end of a walk. */
  function EdgeInto(p: Path, w: Walk): (e: Edge)
    requires p.Hop? && w != []
  {
    if |w| == 1 || p.rest.Stop? then p.edge else EdgeInto(p.rest, w[1..])
  }

  lemma {:induction false} ShownByEdge(p: Path, snap: Snapshot, cfg: Config, into: map<string, Value>, w: Walk)
    requires Drawn(p, snap, cfg) && Has(p, cfg, w) && w != []
    ensures p.Hop?
    ensures Shown(p, cfg, into, w) == EdgeFields(EdgeInto(p, w), cfg) + NodeMap(snap.vertex(EndId(p.node.id, w)), cfg)
    ensures RelKey(EdgeInto(p, w), cfg) == w[|w| - 1].rel
  {
    PrefixTail(w, PathWalk(p, cfg));
    if |w| > 1 {
      ShownByEdge(p.rest, snap, cfg, EdgeFields(p.edge, cfg), w[1..]);
    } else {
      assert w[1..] == [];
    }
  }

  /** One edge per parent, processed relationship type and child. */
  predicate SingleEdges(p: Path, edge: (int, string, int) -> Edge, cfg: Config) {
    p.Hop? ==>
      p.edge == edge(p.node.id, RelKey(p.edge, cfg), p.rest.node.id) && SingleEdges(p.rest, edge, cfg)
  }

  lemma {:induction false} SingleEdgesShow(p: Path, q: Path, snap: Snapshot, edge: (int, string, int) -> Edge,
      cfg: Config, into: map<string, Value>, w: Walk)
    requires Drawn(p, snap, cfg) && Drawn(q, snap, cfg) && p.node.id == q.node.id
    requires SingleEdges(p, edge, cfg) && SingleEdges(q, edge, cfg) && Has(p, cfg, w) && Has(q, cfg, w)
    ensures Shown(p, cfg, into, w) == Shown(q, cfg, into, w)
  {
    if w != [] {
      PrefixTail(w, PathWalk(p, cfg));
      PrefixTail(w, PathWalk(q, cfg));
      SingleEdgesShow(p.rest, q.rest, snap, edge, cfg, EdgeFields(p.edge, cfg), w[1..]);
    }
  }

  /** Without parallel edges the order of the paths is irrelevant. */
  lemma {:induction false} SingleEdgesAgree(ps: seq<Path>, root: int, snap: Snapshot, edge: (int, string, int) -> Edge,
      cfg: Config, rels: set<string>)
    requires Rooted(OfRoot(ps, root), root, snap, cfg, rels)
    requires forall p :: p in OfRoot(ps, root) ==> SingleEdges(p, edge, cfg)
    ensures OrderIrrelevant(ps, root, cfg, rels)
  {
    forall w, p, q | p in OfRoot(ps, root) && q in OfRoot(ps, root) ensures Consistent(p, q, cfg, w) {
      if Has(p, cfg, w) && Has(q, cfg, w) { SingleEdgesShow(p, q, snap, edge, cfg, map[], w); }
    }
    OrderIrrelevantIff(ps, root, snap, cfg, rels);
  }

  /** Two paths that reach the end of a shared walk through different edges show
      different edge ids there, unless the node has a property of that name. */
  lemma {:induction false} ParallelEdgesClash(p: Path, q: Path, snap: Snapshot, cfg: Config, w: Walk)
    requires Drawn(p, snap, cfg) && Drawn(q, snap, cfg) && p.node.id == q.node.id
    requires w != [] && Has(p, cfg, w) && Has(q, cfg, w) && p.Hop? && q.Hop? && EdgeInto(p, w).id != EdgeInto(q, w).id
    requires DotKey(w[|w| - 1].rel, "_id") !in NodeMap(snap.vertex(EndId(p.node.id, w)), cfg)
    ensures !Consistent(p, q, cfg, w)
  {
    var k := DotKey(w[|w| - 1].rel, "_id");
    ShownByEdge(p, snap, cfg, map[], w);
    ShownByEdge(q, snap, cfg, map[], w);
    assert Shown(p, cfg, map[], w)[k] == Int(EdgeInto(p, w).id);
    assert Shown(q, cfg, map[], w)[k] == Int(EdgeInto(q, w).id);
  }

  /** So the order of such paths matters, in a whole run ... */
  lemma {:induction false} ParallelEdgesMatter(ps: seq<Path>, p: Path, q: Path, root: int, snap: Snapshot, cfg: Config,
      rels: set<string>, w: Walk)
    requires Rooted(OfRoot(ps, root), root, snap, cfg, rels) && p in OfRoot(ps, root) && q in OfRoot(ps, root)
    requires w != [] && Has(p, cfg, w) && Has(q, cfg, w) && p.Hop? && q.Hop? && EdgeInto(p, w).id != EdgeInto(q, w).id
    requires DotKey(w[|w| - 1].rel, "_id") !in NodeMap(snap.vertex(EndId(root, w)), cfg)
    ensures !OrderIrrelevant(ps, root, cfg, rels)
  {
    ParallelEdgesClash(p, q, snap, cfg, w);
    ClashMatters(ps, p, q, root, snap, cfg, rels, w);
  }

  lemma {:induction false} ClashIsIncompatible(p: Path, q: Path, cfg: Config, rels: set<string>, w: Walk)
    requires PlainRels(rels) && Clean(p, cfg, rels) && Clean(q, cfg, rels) && !Consistent(p, q, cfg, w)
    ensures !Compatible(Build(p, cfg), Build(q, cfg), rels)
  {
    BuildAtRoot(p, cfg, rels, w);
    BuildAtRoot(q, cfg, rels, w);
  }

  /** ... and in a single merge. */
  lemma {:induction false} ParallelEdgesDoNotCommute(p: Path, q: Path, snap: Snapshot, cfg: Config, rels: set<string>,
      w: Walk)
    requires Rooted([p, q], p.node.id, snap, cfg, rels)
    requires w != [] && Has(p, cfg, w) && Has(q, cfg, w) && p.Hop? && q.Hop? && EdgeInto(p, w).id != EdgeInto(q, w).id
    requires DotKey(w[|w| - 1].rel, "_id") !in NodeMap(snap.vertex(EndId(p.node.id, w)), cfg)
    ensures !SameUpToOrder(MergeTrees(Build(p, cfg), Build(q, cfg)), MergeTrees(Build(q, cfg), Build(p, cfg)), rels)
  {
    assert p in [p, q] && q in [p, q];
    ParallelEdgesClash(p, q, snap, cfg, w);
    ClashIsIncompatible(p, q, cfg, rels, w);
    GoodBuild(p, snap, cfg, rels);
    GoodBuild(q, snap, cfg, rels);
    MergeCommutesIff(Build(p, cfg), Build(q, cfg), rels, TypeOf(snap));
  }

  /** A path of one hop, with a label at its end and no properties. */
  predicate BareHop(p: Path, snap: Snapshot) {
    && p.Hop? && p.node.props == map[] && p.edge.props == map[] && snap.vertex(p.node.id) == p.node
    && p.rest.Stop? && p.rest.node.props == map[] && p.rest.node.labels != [] &&
       snap.vertex(p.rest.node.id) == p.rest.node
  }

  lemma {:induction false} BareHopDrawn(p: Path, snap: Snapshot, cfg: Config)
    requires BareHop(p, snap)
    ensures Clean(p, cfg, {RelKey(p.edge, cfg)}) && Drawn(p, snap, cfg)
    ensures PathWalk(p, cfg) == [Step(RelKey(p.edge, cfg), p.rest.node.id)]
  {
    var rel := RelKey(p.edge, cfg);
    assert EdgeFields(p.edge, cfg) == map[DotKey(rel, "_id") := Int(p.edge.id)];
    assert |DotKey(rel, "_id")| > |rel|;
    assert NodeProps(p.node, cfg) == map[] && NodeProps(p.rest.node, cfg) == map[];
  }

  lemma {:induction false} BareHopsMatter(p: Path, q: Path, snap: Snapshot, cfg: Config)
    requires BareHop(p, snap) && BareHop(q, snap) && p.node == q.node && p.rest == q.rest && p.edge.id != q.edge.id
    requires RelKey(p.edge, cfg) == RelKey(q.edge, cfg) && !Meta(RelKey(p.edge, cfg))
    ensures !OrderIrrelevant([p, q], p.node.id, cfg, {RelKey(p.edge, cfg)})
  {
    var root, w := p.node.id, [Step(RelKey(p.edge, cfg), p.rest.node.id)];
    BareHopDrawn(p, snap, cfg);
    BareHopDrawn(q, snap, cfg);
    TwoRooted(p, q, snap, cfg, {RelKey(p.edge, cfg)});
    assert EndId(root, w) == p.rest.node.id by { assert w[1..] == []; }
    BareKeys(p.rest.node, RelKey(p.edge, cfg), cfg);
    ParallelEdgesMatter([p, q], p, q, root, snap, cfg, {RelKey(p.edge, cfg)}, w);
  }

  lemma {:induction false} TwoRooted(p: Path, q: Path, snap: Snapshot, cfg: Config, rels: set<string>)
    requires p.node.id == q.node.id && PlainRels(rels)
    requires Clean(p, cfg, rels) && Drawn(p, snap, cfg) && Clean(q, cfg, rels) && Drawn(q, snap, cfg)
    ensures var ps := OfRoot([p, q], p.node.id); Rooted(ps, p.node.id, snap, cfg, rels) && p in ps && q in ps
  {
    assert p in [p, q] && q in [p, q];
    OfRootMembers([p, q], p.node.id);
  }

  lemma {:induction false} BareKeys(v: Vertex, rel: string, cfg: Config)
    requires v.props == map[]
    ensures DotKey(rel, "_id") !in NodeMap(v, cfg)
  {
    assert NodeProps(v, cfg) == map[];
    DotKeyPlain(rel, "_id");
  }

  /** Two edges of type R between two vertices: the tree shows the id of the edge
      whose path comes first. */
  lemma {:induction false} ParallelPathsExample()
    ensures var a, b := Vertex(1, ["A"], map[]), Vertex(2, ["B"], map[]);
            var p, q := Hop(a, Edge(7, "R", map[]), Stop(b)), Hop(a, Edge(8, "R", map[]), Stop(b));
            !OrderIrrelevant([p, q], 1, KeepAll(), {"R"})
  {
    var a, b := Vertex(1, ["A"], map[]), Vertex(2, ["B"], map[]);
    var p, q := Hop(a, Edge(7, "R", map[]), Stop(b)), Hop(a, Edge(8, "R", map[]), Stop(b));
    BareHopsMatter(p, q, Snapshot((id: int) => if id == 1 then a else b), KeepAll());
  }
}
