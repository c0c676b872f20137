/** Paths, the chain-shaped tree each of them becomes
    (`build_tree_from_path_recursive`), and the walks of a tree.  Merging trees
    loses no walk and invents none. */
module PathTrees {
  import opened TreeValues
  import opened Merge

  datatype Vertex = Vertex(id: int, labels: seq<string>, props: map<string, Value>)

  datatype Edge = Edge(id: int, kind: string, props: map<string, Value>)

  /** A path is its first vertex, and then either nothing or an edge and the
      path from the next vertex on. */
  datatype Path = Stop(node: Vertex) | Hop(node: Vertex, edge: Edge, rest: Path)

  /** The property filters are kept abstract: any choice per vertex and name,
      and any choice per processed relationship type and name. */
  datatype Config = Config(lowerCaseRels: bool, nodeProp: (Vertex, string) -> bool, relProp: (string, string) -> bool)

  /** Every property is kept and relationship types are taken as they are. */
  function KeepAll(): (cfg: Config) {
    Config(false, (v: Vertex, k: string) => true, (r: string, k: string) => true)
  }

  // ---- building

  function Lower(s: string): (r: string) {
    if s == "" then ""
    else Lower(s[..|s| - 1]) + [if 'A' <= s[|s| - 1] <= 'Z' then s[|s| - 1] + ' ' else s[|s| - 1]]
  }

  function RelKey(e: Edge, cfg: Config): (k: string) {
    if cfg.lowerCaseRels then Lower(e.kind) else e.kind
  }

  /** `mgp_map_insert_move`: a key that is already there keeps its value. */
  function InsertNew(m: map<string, Value>, k: string, v: Value): (r: map<string, Value>) {
    if k in m then m else m[k := v]
  }

  function NodeProps(v: Vertex, cfg: Config): (m: map<string, Value>) {
    map k | k in v.props && cfg.nodeProp(v, k) :: v.props[k]
  }

  function TypeValue(labels: seq<string>): (v: Value)
    requires labels != []
  {
    if |labels| == 1 then Str(labels[0]) else Lst(seq(|labels|, i requires 0 <= i < |labels| => Str(labels[i])))
  }

  /** `create_complete_node_map`: properties first, so they win. */
  function NodeMap(v: Vertex, cfg: Config): (m: map<string, Value>)
    ensures "_id" in m
  {
    var props := NodeProps(v, cfg);
    var typed := if v.labels == [] then props else InsertNew(props, "_type", TypeValue(v.labels));
    InsertNew(typed, "_id", Int(v.id))
  }

  function DotKey(rel: string, name: string): (k: string) { rel + "." + name }

  lemma {:induction false} DotKeyInjective(rel: string)
    ensures forall a, b :: DotKey(rel, a) == DotKey(rel, b) ==> a == b
  {
    forall a, b | DotKey(rel, a) == DotKey(rel, b) ensures a == b {
      assert a == DotKey(rel, a)[|rel| + 1..];
      assert b == DotKey(rel, b)[|rel| + 1..];
    }
  }

  /** What an edge adds to the map of the node it leads to. */
  function EdgeFields(e: Edge, cfg: Config): (m: map<string, Value>) {
    var rel := RelKey(e, cfg);
    DotKeyInjective(rel);
    (map name | name in e.props && cfg.relProp(rel, name) :: DotKey(rel, name) := e.props[name])
    + map[DotKey(rel, "_id") := Int(e.id)]
  }

  function Build(p: Path, cfg: Config): (r: Value)
    ensures r.Obj? && "_id" in r.fields
    decreases p, 0
  {
    match p
    case Stop(v) => Obj(NodeMap(v, cfg))
    case Hop(v, e, rest) => Obj(InsertNew(NodeMap(v, cfg), RelKey(e, cfg), Lst([Child(e, rest, cfg)])))
  }

  /** The subtree below an edge; the node's own keys win over the edge's. */
  function Child(e: Edge, rest: Path, cfg: Config): (r: Value)
    ensures r.Obj? && "_id" in r.fields
    decreases rest, 1
  {
    Obj(EdgeFields(e, cfg) + Build(rest, cfg).fields)
  }

  // ---- what a path's tree shows, read off its vertices and edges

  lemma {:induction false} LowerMeans(s: string)
    ensures |Lower(s)| == |s|
    ensures forall i :: 0 <= i < |s| ==>
              Lower(s)[i] as int == s[i] as int + if 'A' <= s[i] <= 'Z' then 32 else 0
    ensures forall i :: 0 <= i < |s| ==> !('A' <= Lower(s)[i] <= 'Z')
  {
    if s != "" { LowerMeans(s[..|s| - 1]); }
  }

  /** `to_lowercase`. */
  method LowerCase(s: string) returns (r: string)
    ensures r == Lower(s)
  {
    r := "";
    for i := 0 to |s|
      invariant r == Lower(s[..i])
    {
      assert s[..i + 1][..i] == s[..i];
      r := r + [if 'A' <= s[i] <= 'Z' then s[i] + ' ' else s[i]];
    }
    assert s[..|s|] == s;
  }

  predicate Included(v: Vertex, cfg: Config, k: string) {
    k in v.props && cfg.nodeProp(v, k)
  }

  /** One label as a string, several as the list of them in order. */
  predicate ShowsLabels(labels: seq<string>, v: Value) {
    if |labels| == 1 then v == Str(labels[0])
    else v.Lst? && |v.items| == |labels| && forall i :: 0 <= i < |labels| ==> v.items[i] == Str(labels[i])
  }

  lemma {:induction false} LabelsShown(labels: seq<string>)
    requires labels != []
    ensures ShowsLabels(labels, TypeValue(labels))
  {}

  lemma {:induction false} NodePropsShow(v: Vertex, cfg: Config, k: string)
    ensures Included(v, cfg, k) <==> k in NodeProps(v, cfg)
    ensures Included(v, cfg, k) ==> NodeProps(v, cfg)[k] == v.props[k]
  {}

  lemma {:induction false} InsertedShows(m: map<string, Value>, x: string, v: Value, k: string)
    ensures k in InsertNew(m, x, v) <==> k in m || k == x
    ensures k in InsertNew(m, x, v) ==> InsertNew(m, x, v)[k] == if k in m then m[k] else v
  {}

  lemma {:induction false} NodeMapShows(v: Vertex, cfg: Config, k: string)
    ensures var r := NodeMap(v, cfg);
            if Included(v, cfg, k) then k in r && r[k] == v.props[k]
            else if k == "_type" && v.labels != [] then k in r && ShowsLabels(v.labels, r[k])
            else if k == "_id" then k in r && r[k] == Int(v.id)
            else k !in r
  {
    var props := NodeProps(v, cfg);
    NodePropsShow(v, cfg, k);
    if v.labels == [] {
      InsertedShows(props, "_id", Int(v.id), k);
    } else {
      LabelsShown(v.labels);
      InsertedShows(props, "_type", TypeValue(v.labels), k);
      InsertedShows(InsertNew(props, "_type", TypeValue(v.labels)), "_id", Int(v.id), k);
    }
  }

  /** The fields of a node: its included properties as they are, its labels, its
      id, its relationship list, in this order of precedence, and nothing else. */
  lemma {:induction false} BuildShows(p: Path, cfg: Config, k: string)
    ensures var v, r := p.node, Build(p, cfg).fields;
            if Included(v, cfg, k) then k in r && r[k] == v.props[k]
            else if k == "_type" && v.labels != [] then k in r && ShowsLabels(v.labels, r[k])
            else if k == "_id" then k in r && r[k] == Int(v.id)
            else if p.Hop? && k == RelKey(p.edge, cfg) then k in r && r[k] == Lst([Child(p.edge, p.rest, cfg)])
            else k !in r
  {
    NodeMapShows(p.node, cfg, k);
    if p.Hop? { InsertedShows(NodeMap(p.node, cfg), RelKey(p.edge, cfg), Lst([Child(p.edge, p.rest, cfg)]), k); }
  }

  /** The relationship's key: its type, lower-cased if that is asked for. */
  lemma {:induction false} RelKeyMeans(e: Edge, cfg: Config)
    ensures |RelKey(e, cfg)| == |e.kind|
    ensures forall i :: 0 <= i < |e.kind| ==>
              RelKey(e, cfg)[i] as int ==
              e.kind[i] as int + if cfg.lowerCaseRels && 'A' <= e.kind[i] <= 'Z' then 32 else 0
  {
    LowerMeans(e.kind);
  }

  predicate Carries(e: Edge, cfg: Config, name: string) {
    name in e.props && cfg.relProp(RelKey(e, cfg), name)
  }

  lemma {:induction false} EdgeShows(e: Edge, cfg: Config, k: string)
    ensures var rel, r := RelKey(e, cfg), EdgeFields(e, cfg);
            if k == rel + "._id" then k in r && r[k] == Int(e.id)
            else
              && (k in r <==> exists name :: Carries(e, cfg, name) && k == rel + "." + name)
              && (forall name :: Carries(e, cfg, name) && k == rel + "." + name ==> r[k] == e.props[name])
  {
    var rel := RelKey(e, cfg);
    DotKeyInjective(rel);
    assert DotKey(rel, "_id") == rel + "._id" by { assert (rel + ".") + "_id" == rel + "._id"; }
    forall name ensures DotKey(rel, name) == rel + "." + name {}
  }

  /** A child shows all its node does; under keys that are still free, the id of
      the edge and the edge's included properties as they are; and nothing else. */
  lemma {:induction false} ChildShows(e: Edge, rest: Path, cfg: Config, k: string)
    ensures var rel, own, r := RelKey(e, cfg), Build(rest, cfg).fields, Child(e, rest, cfg).fields;
            if k in own then k in r && r[k] == own[k]
            else if k == rel + "._id" then k in r && r[k] == Int(e.id)
            else
              && (k in r <==> exists name :: Carries(e, cfg, name) && k == rel + "." + name)
              && (forall name :: Carries(e, cfg, name) && k == rel + "." + name ==> r[k] == e.props[name])
  {
    EdgeShows(e, cfg, k);
  }

  // ---- walks

  /** One step down a tree: the processed relationship type and the child's id. */
  datatype Step = Step(rel: string, id: int)

  type Walk = seq<Step>

  function PathWalk(p: Path, cfg: Config): (w: Walk) {
    match p
    case Stop(_) => []
    case Hop(_, e, rest) => [Step(RelKey(e, cfg), rest.node.id)] + PathWalk(rest, cfg)
  }

  predicate HasId(v: Value, id: int) {
    v.Obj? && "_id" in v.fields && v.fields["_id"] == Int(id)
  }

  /** The tree has this walk along relationship keys. */
  ghost predicate HasWalk(v: Value, rels: set<string>, w: Walk)
    decreases |w|, 1
  {
    w == [] ||
    (v.Obj? && w[0].rel in rels && w[0].rel in v.fields && v.fields[w[0].rel].Lst? &&
     ListHasWalk(v.fields[w[0].rel].items, rels, w))
  }

  ghost predicate ListHasWalk(xs: seq<Value>, rels: set<string>, w: Walk)
    requires w != []
    decreases |w|, 0
  {
    exists j :: 0 <= j < |xs| && HasId(xs[j], w[0].id) && HasWalk(xs[j], rels, w[1..])
  }

  /** A value in which no walk can go on: not a list, or a list without maps. */
  predicate NoTrees(v: Value) {
    v.Lst? ==> forall i :: 0 <= i < |v.items| ==> !v.items[i].Obj?
  }

  /** A tree in which, by the id of a node, some relationship keys are taken by
      other fields; every other relationship key holds a list of trees. */
  ghost predicate Tree(v: Value, rels: set<string>, taken: int -> set<string>) {
    v.Obj? && "_id" in v.fields && v.fields["_id"].Int? &&
    var own := taken(v.fields["_id"].i);
    && (forall k :: k in rels && k in own ==> k in v.fields && NoTrees(v.fields[k]))
    && (forall k :: k in rels && k !in own && k in v.fields ==>
          v.fields[k].Lst? && forall i :: 0 <= i < |v.fields[k].items| ==> Tree(v.fields[k].items[i], rels, taken))
  }

  ghost predicate Forest(xs: seq<Value>, rels: set<string>, taken: int -> set<string>) {
    forall i :: 0 <= i < |xs| ==> Tree(xs[i], rels, taken)
  }

  predicate PlainRels(rels: set<string>) {
    "_id" !in rels && "_type" !in rels
  }

  /** The relationship keys a vertex takes by its own fields are those of its id;
      they hold no list of maps; and no property is called `_id`. */
  ghost predicate TidyNode(v: Vertex, cfg: Config, rels: set<string>, taken: int -> set<string>) {
    && "_id" !in NodeProps(v, cfg) && NodeMap(v, cfg).Keys * rels == taken(v.id) * rels
    && forall k :: k in NodeProps(v, cfg) && k in rels ==> NoTrees(NodeProps(v, cfg)[k])
  }

  /** So for every vertex of a path, and no edge field is called like a
      relationship key. */
  ghost predicate Tidy(p: Path, cfg: Config, rels: set<string>, taken: int -> set<string>) {
    TidyNode(p.node, cfg, rels, taken) &&
    (p.Hop? ==>
       && RelKey(p.edge, cfg) in rels
       && EdgeFields(p.edge, cfg).Keys !! rels
       && Tidy(p.rest, cfg, rels, taken))
  }

  /** The path up to the first relationship whose key its start node has taken. */
  function KeptWalk(p: Path, cfg: Config): (w: Walk) {
    match p
    case Stop(_) => []
    case Hop(v, e, rest) =>
      if RelKey(e, cfg) in NodeMap(v, cfg) then [] else [Step(RelKey(e, cfg), rest.node.id)] + KeptWalk(rest, cfg)
  }

  lemma {:induction false} NodeMapTidy(v: Vertex, cfg: Config, rels: set<string>, taken: int -> set<string>)
    requires PlainRels(rels) && TidyNode(v, cfg, rels, taken)
    ensures var m := NodeMap(v, cfg);
            && m["_id"] == Int(v.id) && m.Keys * rels == taken(v.id) * rels
            && forall k :: k in m && k in rels ==> NoTrees(m[k])
  {}

  lemma {:induction false} ChildTree(e: Edge, rest: Path, cfg: Config, rels: set<string>, taken: int -> set<string>)
    requires EdgeFields(e, cfg).Keys !! rels && Tree(Build(rest, cfg), rels, taken)
    ensures Tree(Child(e, rest, cfg), rels, taken)
  {
    var sub, below := Child(e, rest, cfg), Build(rest, cfg);
    assert sub.fields["_id"] == below.fields["_id"];
    forall k | k in rels
      ensures k in sub.fields <==> k in below.fields
      ensures k in sub.fields ==> sub.fields[k] == below.fields[k]
    {}
  }

  lemma {:induction false} NodeTree(m: map<string, Value>, id: int, rels: set<string>, taken: int -> set<string>)
    requires "_id" in m && m["_id"] == Int(id) && m.Keys * rels == taken(id) * rels
    requires forall k :: k in m && k in rels ==> NoTrees(m[k])
    ensures Tree(Obj(m), rels, taken)
  {
    forall k | k in rels ensures k in m <==> k in taken(id) {
      assert k in m.Keys * rels <==> k in taken(id) * rels;
    }
  }

  lemma {:induction false} InsertedTree(m: map<string, Value>, id: int, k: string, sub: Value, rels: set<string>,
      taken: int -> set<string>)
    requires "_id" in m && m["_id"] == Int(id) && m.Keys * rels == taken(id) * rels && k in rels &&
             Tree(sub, rels, taken)
    requires forall x :: x in m && x in rels ==> NoTrees(m[x])
    ensures Tree(Obj(InsertNew(m, k, Lst([sub]))), rels, taken)
  {
    NodeTree(m, id, rels, taken);
    if k !in m {
      assert k !in taken(id) by { assert k in m.Keys * rels <==> k in taken(id) * rels; }
    }
  }

  lemma {:induction false} BuildTree(p: Path, cfg: Config, rels: set<string>, taken: int -> set<string>)
    requires PlainRels(rels) && Tidy(p, cfg, rels, taken)
    ensures Tree(Build(p, cfg), rels, taken) && HasId(Build(p, cfg), p.node.id)
    ensures p.Hop? ==> Tree(Child(p.edge, p.rest, cfg), rels, taken)
    ensures p.Hop? ==> HasId(Child(p.edge, p.rest, cfg), p.rest.node.id)
  {
    NodeMapTidy(p.node, cfg, rels, taken);
    match p
    case Stop(v) =>
      NodeTree(NodeMap(v, cfg), v.id, rels, taken);
    case Hop(v, e, rest) =>
      BuildTree(rest, cfg, rels, taken);
      ChildTree(e, rest, cfg, rels, taken);
      InsertedTree(NodeMap(v, cfg), v.id, RelKey(e, cfg), Child(e, rest, cfg), rels, taken);
  }

  lemma {:induction false} NoTreesNoWalk(v: Value, rels: set<string>, w: Walk)
    requires NoTrees(v) && v.Lst? && w != []
    ensures !ListHasWalk(v.items, rels, w)
  {}

  /** A node map gains walks only through the one child put under a free key. */
  lemma {:induction false} FreeKeyWalk(m: map<string, Value>, k: string, sub: Value, rels: set<string>, w: Walk)
    requires k !in m && k in rels && w != [] && w[0].rel == k
    ensures HasWalk(Obj(InsertNew(m, k, Lst([sub]))), rels, w) <==> HasId(sub, w[0].id) && HasWalk(sub, rels, w[1..])
  {
    assert [sub][0] == sub;
  }

  lemma {:induction false} NoWalkWithin(m: map<string, Value>, rels: set<string>, w: Walk)
    requires w != [] && (w[0].rel in m && w[0].rel in rels ==> NoTrees(m[w[0].rel]))
    ensures !HasWalk(Obj(m), rels, w)
  {
    if w[0].rel in m && w[0].rel in rels && m[w[0].rel].Lst? { NoTreesNoWalk(m[w[0].rel], rels, w); }
  }

  lemma {:induction false} OneChildWalks(m: map<string, Value>, k: string, sub: Value, rels: set<string>, w: Walk)
    requires k in rels && w != [] && (w[0].rel in m && w[0].rel in rels ==> NoTrees(m[w[0].rel]))
    ensures HasWalk(Obj(InsertNew(m, k, Lst([sub]))), rels, w) <==>
            k !in m && w[0].rel == k && HasId(sub, w[0].id) && HasWalk(sub, rels, w[1..])
  {
    if k !in m && w[0].rel == k {
      FreeKeyWalk(m, k, sub, rels, w);
    } else {
      NoWalkWithin(InsertNew(m, k, Lst([sub])), rels, w);
    }
  }

  /** The walks of a path's tree are exactly the prefixes of the path up to its
      first taken key. */
  lemma {:induction false} BuildWalks(p: Path, cfg: Config, rels: set<string>, taken: int -> set<string>, w: Walk)
    requires PlainRels(rels) && Tidy(p, cfg, rels, taken)
    ensures HasWalk(Build(p, cfg), rels, w) <==> w <= KeptWalk(p, cfg)
  {
    NodeMapTidy(p.node, cfg, rels, taken);
    if w != [] {
      match p
      case Stop(v) =>
        NoWalkWithin(NodeMap(v, cfg), rels, w);
      case Hop(v, e, rest) =>
        var sub, k := Child(e, rest, cfg), RelKey(e, cfg);
        OneChildWalks(NodeMap(v, cfg), k, sub, rels, w);
        if k !in NodeMap(v, cfg) {
          assert HasId(sub, rest.node.id) by { BuildTree(p, cfg, rels, taken); }
          BuildWalks(rest, cfg, rels, taken, w[1..]);
          ChildWalks(e, rest, cfg, rels, w[1..]);
          PrefixTail(w, KeptWalk(p, cfg));
        }
    }
  }

  lemma {:induction false} PrefixTail(w: Walk, u: Walk)
    requires w != [] && u != []
    ensures w <= u <==> w[0] == u[0] && w[1..] <= u[1..]
  {
    if w[0] == u[0] && w[1..] <= u[1..] {
      assert w == [w[0]] + w[1..];
      assert u == [u[0]] + u[1..];
    }
  }

  /** The edge's own fields add no walk. */
  lemma {:induction false} ChildWalks(e: Edge, rest: Path, cfg: Config, rels: set<string>, w: Walk)
    requires EdgeFields(e, cfg).Keys !! rels
    ensures HasWalk(Child(e, rest, cfg), rels, w) <==> HasWalk(Build(rest, cfg), rels, w)
  {}

  // ---- paths on which no key is taken

  function NoneTaken(): (taken: int -> set<string>) {
    (id: int) => {}
  }

  /** No property is called like a relationship key or `_id`, and no edge field
      like a relationship key. */
  predicate CleanNode(v: Vertex, cfg: Config, rels: set<string>) {
    NodeProps(v, cfg).Keys !! rels && "_id" !in NodeProps(v, cfg)
  }

  predicate Clean(p: Path, cfg: Config, rels: set<string>) {
    CleanNode(p.node, cfg, rels) &&
    (p.Hop? ==>
       && RelKey(p.edge, cfg) in rels
       && EdgeFields(p.edge, cfg).Keys !! rels
       && Clean(p.rest, cfg, rels))
  }

  lemma {:induction false} NodeMapClean(v: Vertex, cfg: Config, rels: set<string>)
    requires PlainRels(rels) && CleanNode(v, cfg, rels)
    ensures NodeMap(v, cfg).Keys !! rels && NodeMap(v, cfg)["_id"] == Int(v.id)
  {}

  lemma {:induction false} CleanIsTidy(p: Path, cfg: Config, rels: set<string>)
    requires PlainRels(rels) && Clean(p, cfg, rels)
    ensures Tidy(p, cfg, rels, NoneTaken()) && KeptWalk(p, cfg) == PathWalk(p, cfg)
  {
    NodeMapClean(p.node, cfg, rels);
    assert NodeMap(p.node, cfg).Keys * rels == {} == NoneTaken()(p.node.id) * rels;
    if p.Hop? { CleanIsTidy(p.rest, cfg, rels); }
  }

  // ---- which single paths survive the conversion to a tree

  predicate NoLists(m: map<string, Value>) {
    forall k :: k in m ==> !m[k].Lst?
  }

  /** No property called like a relationship of the path holds a list of maps. */
  predicate PlainTaken(p: Path, cfg: Config) {
    p.Hop? ==>
      && (RelKey(p.edge, cfg) in NodeProps(p.node, cfg) ==> NoTrees(NodeProps(p.node, cfg)[RelKey(p.edge, cfg)]))
      && PlainTaken(p.rest, cfg)
  }

  /** No relationship on the path is called like a key its start node already
      has: a property, `_id` or `_type`. */
  predicate Unshadowed(p: Path, cfg: Config) {
    p.Hop? ==> RelKey(p.edge, cfg) !in NodeMap(p.node, cfg) && Unshadowed(p.rest, cfg)
  }

  predicate IdShown(v: Vertex, cfg: Config) {
    "_id" in NodeProps(v, cfg) ==> NodeProps(v, cfg)["_id"] == Int(v.id)
  }

  /** No vertex but the first has a property `_id` other than its id. */
  predicate IdsShown(p: Path, cfg: Config) {
    p.Hop? ==>
      IdShown(p.rest.node, cfg) && IdsShown(p.rest, cfg)
  }

  predicate RelsIn(p: Path, cfg: Config, rels: set<string>) {
    p.Hop? ==> RelKey(p.edge, cfg) in rels && RelsIn(p.rest, cfg, rels)
  }

  /** At every hop the key is free and the id is shown, up to one where what takes
      the key is a list of maps that has the rest of the walk itself. */
  ghost predicate Survives(p: Path, cfg: Config, rels: set<string>) {
    p.Hop? ==>
      if RelKey(p.edge, cfg) in NodeMap(p.node, cfg) then HasWalk(Obj(NodeMap(p.node, cfg)), rels, PathWalk(p, cfg))
      else IdShown(p.rest.node, cfg) && Survives(p.rest, cfg, rels)
  }

  /** The relationship list is inserted last and only if its key is free, and a
      property wins over the node's id, so a path survives exactly when no key on
      it is taken and the ids are shown, unless a property is made to look like
      the children it displaces. */
  lemma {:induction false} PathKeptIff(p: Path, cfg: Config, rels: set<string>)
    requires RelsIn(p, cfg, rels)
    ensures HasWalk(Build(p, cfg), rels, PathWalk(p, cfg)) <==> Survives(p, cfg, rels)
    ensures PlainTaken(p, cfg) ==> (Survives(p, cfg, rels) <==> Unshadowed(p, cfg) && IdsShown(p, cfg))
  {
    if p.Hop? {
      var w, k, m := PathWalk(p, cfg), RelKey(p.edge, cfg), NodeMap(p.node, cfg);
      assert w[0] == Step(k, p.rest.node.id) && w[1..] == PathWalk(p.rest, cfg);
      PathKeptIff(p.rest, cfg, rels);
      if k in m {
        if PlainTaken(p, cfg) {
          TakenIsPlain(p.node, cfg, k);
          NoWalkWithin(m, rels, w);
        }
      } else {
        FreeKeyWalk(m, k, Child(p.edge, p.rest, cfg), rels, w);
        ShownId(p.edge, p.rest, cfg);
        PathChildWalks(p.edge, p.rest, cfg, rels);
      }
    }
  }

  lemma {:induction false} TakenIsPlain(v: Vertex, cfg: Config, k: string)
    requires k in NodeProps(v, cfg) ==> NoTrees(NodeProps(v, cfg)[k])
    ensures k in NodeMap(v, cfg) ==> NoTrees(NodeMap(v, cfg)[k])
  {}

  lemma {:induction false} NodeId(v: Vertex, cfg: Config)
    ensures NodeMap(v, cfg)["_id"] == if "_id" in NodeProps(v, cfg) then NodeProps(v, cfg)["_id"] else Int(v.id)
  {}

  lemma {:induction false} InsertKeeps(m: map<string, Value>, k: string, v: Value, x: string)
    requires x in m
    ensures x in InsertNew(m, k, v) && InsertNew(m, k, v)[x] == m[x]
  {}

  lemma {:induction false} BuildId(p: Path, cfg: Config)
    ensures Build(p, cfg).fields["_id"] == NodeMap(p.node, cfg)["_id"]
  {
    if p.Hop? { InsertKeeps(NodeMap(p.node, cfg), RelKey(p.edge, cfg), Lst([Child(p.edge, p.rest, cfg)]), "_id"); }
  }

  /** A child shows its node's id unless a property does otherwise. */
  lemma {:induction false} ShownId(e: Edge, rest: Path, cfg: Config)
    ensures HasId(Child(e, rest, cfg), rest.node.id) <==> IdShown(rest.node, cfg)
  {
    var below := Build(rest, cfg);
    BuildId(rest, cfg);
    NodeId(rest.node, cfg);
    assert (EdgeFields(e, cfg) + below.fields)["_id"] == below.fields["_id"];
  }

  lemma {:induction false} PathChildWalks(e: Edge, rest: Path, cfg: Config, rels: set<string>)
    ensures HasWalk(Child(e, rest, cfg), rels, PathWalk(rest, cfg)) <==>
            HasWalk(Build(rest, cfg), rels, PathWalk(rest, cfg))
  {
    if rest.Hop? { assert RelKey(rest.edge, cfg) in Build(rest, cfg).fields; }
  }

  lemma {:induction false} TakenKeyLoses(v: Vertex, e: Edge, rest: Path, cfg: Config, rels: set<string>)
    requires RelKey(e, cfg) in NodeMap(v, cfg) && NoTrees(NodeMap(v, cfg)[RelKey(e, cfg)])
    ensures var p := Hop(v, e, rest);
            Build(p, cfg) == Build(Stop(v), cfg) && !HasWalk(Build(p, cfg), rels, PathWalk(p, cfg))
  {
    NoWalkWithin(NodeMap(v, cfg), rels, PathWalk(Hop(v, e, rest), cfg));
  }

  /** A path whose relationship is called like a property of its first node loses
      its second node. */
  lemma {:induction false} TakenKeyExample()
    ensures var p := Hop(Vertex(1, [], map["KNOWS" := Int(5)]), Edge(7, "KNOWS", map[]), Stop(Vertex(2, [], map[])));
            && Build(p, KeepAll()) == Build(Stop(p.node), KeepAll())
            && !HasWalk(Build(p, KeepAll()), {"KNOWS"}, PathWalk(p, KeepAll()))
  {
    var v, e := Vertex(1, [], map["KNOWS" := Int(5)]), Edge(7, "KNOWS", map[]);
    assert NodeProps(v, KeepAll())["KNOWS"] == Int(5);
    TakenKeyLoses(v, e, Stop(Vertex(2, [], map[])), KeepAll(), {"KNOWS"});
  }

  /** A child is found under the id it shows, and under no other. */
  lemma {:induction false} FoundAsShown(v: Vertex, e: Edge, rest: Path, cfg: Config, rels: set<string>, id: int)
    requires RelKey(e, cfg) in rels && RelKey(e, cfg) !in NodeMap(v, cfg)
    ensures HasWalk(Build(Hop(v, e, rest), cfg), rels, [Step(RelKey(e, cfg), id)]) <==>
            NodeMap(rest.node, cfg)["_id"] == Int(id)
  {
    var w := [Step(RelKey(e, cfg), id)];
    assert w[1..] == [];
    FreeKeyWalk(NodeMap(v, cfg), RelKey(e, cfg), Child(e, rest, cfg), rels, w);
    assert HasId(Child(e, rest, cfg), id) <==> NodeMap(rest.node, cfg)["_id"] == Int(id) by { BuildId(rest, cfg); }
  }

  /** A property `_id` of the second node hides its id. */
  lemma {:induction false} HiddenIdExample()
    ensures var p := Hop(Vertex(1, [], map[]), Edge(7, "R", map[]), Stop(Vertex(2, [], map["_id" := Int(9)])));
            && HasWalk(Build(p, KeepAll()), {"R"}, [Step("R", 9)])
            && !HasWalk(Build(p, KeepAll()), {"R"}, PathWalk(p, KeepAll()))
  {
    var a, e, b := Vertex(1, [], map[]), Edge(7, "R", map[]), Vertex(2, [], map["_id" := Int(9)]);
    assert NodeProps(b, KeepAll())["_id"] == Int(9);
    assert PathWalk(Hop(a, e, Stop(b)), KeepAll()) == [Step("R", 2)];
    FoundAsShown(a, e, Stop(b), KeepAll(), {"R"}, 9);
    FoundAsShown(a, e, Stop(b), KeepAll(), {"R"}, 2);
  }

  // ---- merging keeps exactly the walks of both

  lemma {:induction false} NoTreesMerge(xs: seq<Value>, ys: seq<Value>)
    requires NoTrees(Lst(xs)) && NoTrees(Lst(ys))
    ensures NoTrees(Lst(MergeLists(xs, ys)))
  {
    assert forall i :: 0 <= i < |xs| ==> !xs[i].Obj? by { assert Lst(xs).items == xs; }
    assert forall i :: 0 <= i < |ys| ==> !ys[i].Obj? by { assert Lst(ys).items == ys; }
    ConcatenateOnto(xs, ys);
  }

  lemma {:induction false} MergeTreesTree(t: Value, s: Value, rels: set<string>, taken: int -> set<string>)
    requires PlainRels(rels) && Tree(t, rels, taken) && Tree(s, rels, taken) && t.fields["_id"] == s.fields["_id"]
    ensures Tree(MergeTrees(t, s), rels, taken) && MergeTrees(t, s).fields["_id"] == t.fields["_id"]
    decreases s, 1
  {
    var r, own := MergeTrees(t, s), taken(t.fields["_id"].i);
    forall k | k in rels && k in own ensures k in r.fields && NoTrees(r.fields[k]) {
      if SharedList(t, s, k) { NoTreesMerge(t.fields[k].items, s.fields[k].items); }
    }
    forall k | k in rels && k !in own && k in r.fields
      ensures r.fields[k].Lst? && Forest(r.fields[k].items, rels, taken)
    {
      if SharedList(t, s, k) { MergeListsForest(t.fields[k].items, s.fields[k].items, rels, taken); }
    }
  }

  lemma {:induction false} SameTarget(xs: seq<Value>, y: Value)
    requires Target(xs, y) < |xs|
    ensures "_id" in y.fields && "_id" in xs[Target(xs, y)].fields && xs[Target(xs, y)].fields["_id"] == y.fields["_id"]
  {}

  lemma {:induction false} MergeListsForest(xs: seq<Value>, ys: seq<Value>, rels: set<string>,
      taken: int -> set<string>)
    requires PlainRels(rels) && Forest(xs, rels, taken) && Forest(ys, rels, taken)
    ensures Forest(MergeLists(xs, ys), rels, taken)
    decreases ys, 0
  {
    if ys != [] {
      var j := Target(xs, ys[0]);
      if j < |xs| {
        SameTarget(xs, ys[0]);
        MergeTreesTree(xs[j], ys[0], rels, taken);
      }
      MergeListsForest(MergeItem(xs, ys[0]), ys[1..], rels, taken);
    }
  }

  lemma {:induction false} SameIdentitySameId(x: Value, y: Value, id: int)
    requires Identity(x).Some? && Identity(x) == Identity(y)
    ensures HasId(x, id) <==> HasId(y, id)
  {}

  lemma {:induction false} MergeTreesWalks(t: Value, s: Value, rels: set<string>, taken: int -> set<string>, w: Walk)
    requires PlainRels(rels) && Tree(t, rels, taken) && Tree(s, rels, taken) && t.fields["_id"] == s.fields["_id"]
    ensures HasWalk(MergeTrees(t, s), rels, w) <==> HasWalk(t, rels, w) || HasWalk(s, rels, w)
    decreases s, 1
  {
    if w != [] && w[0].rel in rels {
      var k := w[0].rel;
      if k in taken(t.fields["_id"].i) {
        MergeTreesTree(t, s, rels, taken);
        NoWalkWithin(t.fields, rels, w);
        NoWalkWithin(s.fields, rels, w);
        NoWalkWithin(MergeTrees(t, s).fields, rels, w);
      } else if k in t.fields && k in s.fields {
        assert SharedList(t, s, k);
        MergeListsWalks(t.fields[k].items, s.fields[k].items, rels, taken, w);
      }
    }
  }

  lemma {:induction false} MergeListsWalks(xs: seq<Value>, ys: seq<Value>, rels: set<string>, taken: int -> set<string>,
      w: Walk)
    requires PlainRels(rels) && Forest(xs, rels, taken) && Forest(ys, rels, taken) && w != []
    ensures ListHasWalk(MergeLists(xs, ys), rels, w) <==> ListHasWalk(xs, rels, w) || ListHasWalk(ys, rels, w)
    decreases ys, 0
  {
    if ys != [] {
      var zs := MergeItem(xs, ys[0]);
      var j := Target(xs, ys[0]);
      if j < |xs| {
        SameTarget(xs, ys[0]);
        MergeTreesTree(xs[j], ys[0], rels, taken);
        MergeTreesWalks(xs[j], ys[0], rels, taken, w[1..]);
      }
      MergeItemWalks(xs, ys[0], rels, w);
      MergeListsWalks(zs, ys[1..], rels, taken, w);
      ListWalkHead(ys, rels, w);
    }
  }

  lemma {:induction false} ListWalkHead(ys: seq<Value>, rels: set<string>, w: Walk)
    requires ys != [] && w != []
    ensures ListHasWalk(ys, rels, w) <==>
            (HasId(ys[0], w[0].id) && HasWalk(ys[0], rels, w[1..])) || ListHasWalk(ys[1..], rels, w)
  {
    if j :| 0 <= j < |ys[1..]| && HasId(ys[1..][j], w[0].id) && HasWalk(ys[1..][j], rels, w[1..]) {
      assert HasId(ys[j + 1], w[0].id) && HasWalk(ys[j + 1], rels, w[1..]);
    }
    if j :| 0 <= j < |ys| && HasId(ys[j], w[0].id) && HasWalk(ys[j], rels, w[1..]) {
      if j > 0 { assert ys[1..][j - 1] == ys[j]; }
    }
  }

  lemma {:induction false} MergeItemWalks(xs: seq<Value>, y: Value, rels: set<string>, w: Walk)
    requires w != []
    requires Target(xs, y) < |xs| ==>
               (HasWalk(MergeTrees(xs[Target(xs, y)], y), rels, w[1..]) <==>
                HasWalk(xs[Target(xs, y)], rels, w[1..]) || HasWalk(y, rels, w[1..]))
    ensures ListHasWalk(MergeItem(xs, y), rels, w) <==>
            ListHasWalk(xs, rels, w) || (HasId(y, w[0].id) && HasWalk(y, rels, w[1..]))
  {
    var j, zs := Target(xs, y), MergeItem(xs, y);
    if j < |xs| {
      MergeTreesKeepsIdentity(xs[j], y);
      SameIdentitySameId(xs[j], y, w[0].id);
      SameIdentitySameId(xs[j], zs[j], w[0].id);
    }
    if ListHasWalk(xs, rels, w) {
      var i :| 0 <= i < |xs| && HasId(xs[i], w[0].id) && HasWalk(xs[i], rels, w[1..]);
      assert HasId(zs[i], w[0].id) && HasWalk(zs[i], rels, w[1..]);
    }
    if HasId(y, w[0].id) && HasWalk(y, rels, w[1..]) {
      assert HasId(zs[j], w[0].id) && HasWalk(zs[j], rels, w[1..]);
    }
    if ListHasWalk(zs, rels, w) {
      var i :| 0 <= i < |zs| && HasId(zs[i], w[0].id) && HasWalk(zs[i], rels, w[1..]);
      if i != j { assert xs[i] == zs[i]; }
      else if j < |xs| { assert HasId(xs[j], w[0].id); }
    }
  }
}
