/** `schema.node_type_properties`: a scan that groups the nodes by label set,
    samples each group, and reports for every property which types it has and
    whether it is mandatory. */
module SchemaScan {

  /** A node as the scan sees it: its label set, the types of its outgoing
      relationships in order, and the type name of each property. */
  datatype Node = Node(labels: set<string>, rels: seq<string>, props: map<string, string>)

  datatype Config = Config(
    includeLabels: set<string>, excludeLabels: set<string>,
    includeRels: set<string>, excludeRels: set<string>,
    sample: int, maxRels: int)

  datatype PropertyInfo = PropertyInfo(types: set<string>, occurrences: nat)

  datatype Info = Info(props: map<string, PropertyInfo>, occurrences: nat)

  type Table = map<set<string>, Info>

  datatype Row = Row(labels: set<string>, prop: string, types: set<string>, mandatory: bool)

  datatype Result = Error | Rows(rows: seq<Row>)

  // ---- which nodes are taken

  ghost predicate LabelsPass(labels: set<string>, cfg: Config) {
    && (cfg.includeLabels != {} ==> exists l :: l in labels && l in cfg.includeLabels)
    && (forall l :: l in labels ==> l !in cfg.excludeLabels)
  }

  /** The relationships looked at: the first `maxRels`, all if that is not positive. */
  function Looked(rels: seq<string>, cfg: Config): (r: seq<string>) {
    if 0 < cfg.maxRels < |rels| then rels[..cfg.maxRels] else rels
  }

  ghost predicate RelsPass(rels: seq<string>, cfg: Config) {
    && (cfg.includeRels != {} ==> exists t :: t in Looked(rels, cfg) && t in cfg.includeRels)
    && (forall t :: t in Looked(rels, cfg) ==> t !in cfg.excludeRels)
  }

  ghost predicate Accepted(n: Node, cfg: Config) {
    LabelsPass(n.labels, cfg) && RelsPass(n.rels, cfg)
  }

  /** `any_of`: the labels in any order, up to the first that is listed. */
  method AnyOf(labels: set<string>, listed: set<string>) returns (found: bool)
    ensures found <==> exists l :: l in labels && l in listed
  {
    var todo := labels;
    found := false;
    while todo != {} && !found
      invariant todo <= labels
      invariant found <==> exists l :: l in labels - todo && l in listed
      decreases |todo|
    {
      var l :| l in todo;
      found := l in listed;
      todo := todo - {l};
    }
  }

  /** The label test: one label is included, if any is asked for, and none is
      excluded. */
  method CheckLabels(labels: set<string>, cfg: Config) returns (ok: bool)
    ensures ok <==> LabelsPass(labels, cfg)
  {
    if cfg.includeLabels != {} {
      var included := AnyOf(labels, cfg.includeLabels);
      if !included { return false; }
    }
    if cfg.excludeLabels != {} {
      var excluded := AnyOf(labels, cfg.excludeLabels);
      if excluded { return false; }
    }
    return true;
  }

  /** The relationship loop stops at the limit and at the first excluded type; it
      accepts exactly if none of those looked at is excluded and one is included. */
  method CheckRels(rels: seq<string>, cfg: Config) returns (ok: bool)
    ensures ok <==> RelsPass(rels, cfg)
  {
    if cfg.includeRels == {} && cfg.excludeRels == {} { return true; }
    var hasIncluded, hasExcluded, checked := cfg.includeRels == {}, false, 0;
    ghost var looked := Looked(rels, cfg);
    while checked < |rels| && !(cfg.maxRels > 0 && checked >= cfg.maxRels) && !hasExcluded
      invariant 0 <= checked <= |looked|
      invariant hasIncluded <==> cfg.includeRels == {} || exists t :: t in looked[..checked] && t in cfg.includeRels
      invariant hasExcluded <==> exists t :: t in looked[..checked] && t in cfg.excludeRels
      decreases |rels| - checked
    {
      var t := rels[checked];
      assert looked[..checked + 1] == looked[..checked] + [t];
      if t in cfg.includeRels { hasIncluded := true; }
      if t in cfg.excludeRels { hasExcluded := true; }
      checked := checked + 1;
    }
    if hasExcluded {
      ghost var t :| t in looked[..checked] && t in cfg.excludeRels;
      assert t in looked;
    } else {
      assert looked[..checked] == looked;
    }
    ok := hasIncluded && !hasExcluded;
  }

  // ---- what a group of nodes amounts to

  predicate Carries(n: Node, k: string) { k in n.props }

  function CountWith(ns: seq<Node>, k: string): (c: nat)
    ensures c <= |ns|
  {
    if ns == [] then 0 else CountWith(ns[..|ns| - 1], k) + if Carries(ns[|ns| - 1], k) then 1 else 0
  }

  function TypesOf(ns: seq<Node>, k: string): (r: set<string>) {
    set n | n in ns && Carries(n, k) :: n.props[k]
  }

  /** One node's properties added to the counters. */
  function Absorb(m: map<string, PropertyInfo>, props: map<string, string>): (r: map<string, PropertyInfo>) {
    map k | k in m.Keys + props.Keys ::
      if k !in props then m[k]
      else if k in m then PropertyInfo(m[k].types + {props[k]}, m[k].occurrences + 1)
      else PropertyInfo({props[k]}, 1)
  }

  function Counters(ns: seq<Node>): (r: map<string, PropertyInfo>) {
    if ns == [] then map[] else Absorb(Counters(ns[..|ns| - 1]), ns[|ns| - 1].props)
  }

  /** The counters hold, for each property some node carries, how many do and the
      types seen. */
  lemma {:induction false} CountersMean(ns: seq<Node>, k: string)
    ensures k in Counters(ns) <==> CountWith(ns, k) > 0
    ensures k in Counters(ns) ==> Counters(ns)[k] == PropertyInfo(TypesOf(ns, k), CountWith(ns, k))
    ensures CountWith(ns, k) == 0 ==> TypesOf(ns, k) == {}
  {
    if ns != [] {
      var rest, n := ns[..|ns| - 1], ns[|ns| - 1];
      CountersMean(rest, k);
      assert ns == rest + [n];
      assert TypesOf(ns, k) == TypesOf(rest, k) + if Carries(n, k) then {n.props[k]} else {};
    }
  }

  ghost predicate AllCarry(ns: seq<Node>, k: string) { forall n :: n in ns ==> Carries(n, k) }

  ghost predicate SomeProps(ns: seq<Node>) { exists n :: n in ns && n.props != map[] }

  ghost predicate SomeCarries(ns: seq<Node>, k: string) { exists n :: n in ns && Carries(n, k) }

  lemma {:induction false} CarryNext(rest: seq<Node>, n: Node, k: string)
    ensures AllCarry(rest + [n], k) <==> AllCarry(rest, k) && Carries(n, k)
    ensures SomeCarries(rest + [n], k) <==> SomeCarries(rest, k) || Carries(n, k)
  {
    assert forall x :: x in rest + [n] <==> x in rest || x == n;
  }

  /** A full count means every node carries the property, and a positive one that
      some node does. */
  lemma {:induction false} CountIsAllIff(ns: seq<Node>, k: string)
    ensures CountWith(ns, k) == |ns| <==> AllCarry(ns, k)
    ensures CountWith(ns, k) > 0 <==> SomeCarries(ns, k)
  {
    if ns != [] {
      var rest, n := ns[..|ns| - 1], ns[|ns| - 1];
      CountIsAllIff(rest, k);
      CarryNext(rest, n, k);
      assert ns == rest + [n];
    }
  }

  // ---- groups and samples

  ghost function Group(nodes: seq<Node>, cfg: Config, labels: set<string>): (r: seq<Node>) {
    if nodes == [] then []
    else
      var front, n := nodes[..|nodes| - 1], nodes[|nodes| - 1];
      if Accepted(n, cfg) && n.labels == labels then Group(front, cfg, labels) + [n] else Group(front, cfg, labels)
  }

  /** The first `sample` of a group, all of it if that is not positive. */
  function Sampled(group: seq<Node>, cfg: Config): (r: seq<Node>) {
    if 0 < cfg.sample < |group| then group[..cfg.sample] else group
  }

  ghost function InfoOf(group: seq<Node>, cfg: Config): (r: Info) {
    Info(Counters(Sampled(group, cfg)), |group|)
  }

  ghost predicate TableOk(table: Table, nodes: seq<Node>, cfg: Config) {
    forall labels :: Describes(table, labels, Group(nodes, cfg, labels), cfg)
  }

  /** The entry of a label set describes its group; there is none for no nodes. */
  ghost predicate Describes(table: Table, labels: set<string>, group: seq<Node>, cfg: Config) {
    && (labels in table <==> group != [])
    && (labels in table ==> table[labels] == InfoOf(group, cfg))
  }

  lemma {:induction false} AbsorbNext(m: map<string, PropertyInfo>, done: map<string, string>, k: string, t: string)
    requires k !in done
    ensures k in Absorb(m, done) <==> k in m
    ensures k in m ==> Absorb(m, done)[k] == m[k]
    ensures Absorb(m, done[k := t]) ==
            Absorb(m, done)[k :=
              if k in m then PropertyInfo(m[k].types + {t}, m[k].occurrences + 1) else PropertyInfo({t}, 1)]
  {}

  /** The properties but those still to do are counted. */
  ghost predicate CountedBut(m: map<string, PropertyInfo>, props: map<string, string>, todo: set<string>,
      r: map<string, PropertyInfo>)
  {
    todo <= props.Keys && r == Absorb(m, props - todo)
  }

  lemma {:induction false} CountOne(m: map<string, PropertyInfo>, props: map<string, string>, todo: set<string>,
      r: map<string, PropertyInfo>, k: string)
    requires CountedBut(m, props, todo, r) && k in todo
    ensures CountedBut(m, props, todo - {k},
                       r[k := if k in r then PropertyInfo(r[k].types + {props[k]}, r[k].occurrences + 1)
                              else PropertyInfo({props[k]}, 1)])
  {
    var done := props - todo;
    AbsorbNext(m, done, k, props[k]);
    assert props - (todo - {k}) == done[k := props[k]];
  }

  /** The property loop over a node, in any order of its properties. */
  method AddProps(m: map<string, PropertyInfo>, props: map<string, string>) returns (r: map<string, PropertyInfo>)
    ensures r == Absorb(m, props)
  {
    r := m;
    var todo := props.Keys;
    assert props - todo == map[] && Absorb(m, map[]) == m;
    while todo != {}
      invariant CountedBut(m, props, todo, r)
      decreases |todo|
    {
      var k :| k in todo;
      CountOne(m, props, todo, r, k);
      if k !in r {
        r := r[k := PropertyInfo({props[k]}, 1)];
      } else {
        r := r[k := PropertyInfo(r[k].types + {props[k]}, r[k].occurrences + 1)];
      }
      todo := todo - {k};
    }
    assert props - {} == props;
  }

  lemma {:induction false} SampledNext(group: seq<Node>, n: Node, cfg: Config)
    ensures Counters(Sampled(group + [n], cfg)) ==
            if cfg.sample > 0 && |group| + 1 > cfg.sample then Counters(Sampled(group, cfg))
            else Absorb(Counters(Sampled(group, cfg)), n.props)
  {
    if cfg.sample > 0 && |group| + 1 > cfg.sample {
      assert (group + [n])[..cfg.sample] == group[..cfg.sample];
      assert Sampled(group + [n], cfg) == Sampled(group, cfg);
    } else {
      assert Sampled(group + [n], cfg) == group + [n] && Sampled(group, cfg) == group;
      assert (group + [n])[..|group|] == group;
    }
  }

  lemma {:induction false} GroupNext(nodes: seq<Node>, n: Node, cfg: Config, labels: set<string>)
    ensures Group(nodes + [n], cfg, labels) ==
            if Accepted(n, cfg) && n.labels == labels
            then Group(nodes, cfg, labels) + [n] else Group(nodes, cfg, labels)
  {
    assert (nodes + [n])[..|nodes|] == nodes;
  }

  lemma {:induction false} TableNext(table: Table, nodes: seq<Node>, n: Node, cfg: Config)
    requires TableOk(table, nodes, cfg)
    ensures !Accepted(n, cfg) ==> TableOk(table, nodes + [n], cfg)
    ensures Accepted(n, cfg) ==>
              TableOk(table[n.labels := InfoOf(Group(nodes, cfg, n.labels) + [n], cfg)], nodes + [n], cfg)
  {
    var group := Group(nodes, cfg, n.labels);
    forall labels
      ensures !Accepted(n, cfg) ==> Describes(table, labels, Group(nodes + [n], cfg, labels), cfg)
      ensures Accepted(n, cfg) ==>
                Describes(table[n.labels := InfoOf(group + [n], cfg)], labels, Group(nodes + [n], cfg, labels), cfg)
    {
      assert Describes(table, labels, Group(nodes, cfg, labels), cfg);
      GroupNext(nodes, n, cfg, labels);
      if labels == n.labels {
        DescribesNext(table, labels, group, n, cfg);
      } else {
        DescribesOther(table, labels, Group(nodes, cfg, labels), cfg, n.labels, InfoOf(group + [n], cfg));
      }
    }
  }

  lemma {:induction false} DescribesNext(table: Table, labels: set<string>, group: seq<Node>, n: Node, cfg: Config)
    requires Describes(table, labels, group, cfg)
    ensures Describes(table[labels := InfoOf(group + [n], cfg)], labels, group + [n], cfg)
  {}

  lemma {:induction false} DescribesOther(table: Table, labels: set<string>, group: seq<Node>, cfg: Config,
      other: set<string>, info: Info)
    requires Describes(table, labels, group, cfg) && other != labels
    ensures Describes(table[other := info], labels, group, cfg)
  {}

  /** One turn of the scan on an accepted node: past the sample size a node is
      counted but its properties are not looked at. */
  method TakeNode(info: Info, n: Node, cfg: Config, ghost group: seq<Node>) returns (r: Info)
    requires info == InfoOf(group, cfg)
    ensures r == InfoOf(group + [n], cfg)
  {
    SampledNext(group, n, cfg);
    r := info.(occurrences := info.occurrences + 1);
    if cfg.sample > 0 && r.occurrences > cfg.sample { return; }
    if n.props == map[] {
      assert Absorb(info.props, n.props) == info.props;
      return;
    }
    var props := AddProps(r.props, n.props);
    r := r.(props := props);
  }

  /** The group's entry, a new one if it has none. */
  function Entry(table: Table, labels: set<string>): (info: Info) {
    if labels in table then table[labels] else Info(map[], 0)
  }

  lemma {:induction false} EntryOk(table: Table, nodes: seq<Node>, cfg: Config, labels: set<string>)
    requires TableOk(table, nodes, cfg)
    ensures Entry(table, labels) == InfoOf(Group(nodes, cfg, labels), cfg)
  {
    assert Describes(table, labels, Group(nodes, cfg, labels), cfg);
  }

  method ScanNodes(nodes: seq<Node>, cfg: Config) returns (table: Table)
    ensures TableOk(table, nodes, cfg)
  {
    table := map[];
    for i := 0 to |nodes|
      invariant TableOk(table, nodes[..i], cfg)
    {
      var n := nodes[i];
      assert nodes[..i + 1] == nodes[..i] + [n];
      TableNext(table, nodes[..i], n, cfg);
      var ok := CheckLabels(n.labels, cfg);
      if ok { ok := CheckRels(n.rels, cfg); }
      if ok {
        EntryOk(table, nodes[..i], cfg, n.labels);
        var info := TakeNode(Entry(table, n.labels), n, cfg, Group(nodes[..i], cfg, n.labels));
        table := table[n.labels := info];
      }
    }
    assert nodes[..|nodes|] == nodes;
  }

  // ---- the report

  /** The rows a group deserves, stated on the sampled nodes themselves. */
  ghost predicate Deserved(row: Row, nodes: seq<Node>, cfg: Config) {
    var group := Group(nodes, cfg, row.labels);
    var sampled := Sampled(group, cfg);
    && group != []
    && if SomeProps(sampled) then
         && SomeCarries(sampled, row.prop)
         && row.types == TypesOf(sampled, row.prop)
         && (row.mandatory <==> AllCarry(sampled, row.prop))
       else
         row.prop == "" && row.types == {} && !row.mandatory
  }

  /** The row for one property of one group. */
  function RowFor(labels: set<string>, info: Info, k: string, cfg: Config): (r: Row)
    requires k in info.props
  {
    var effective := if 0 < cfg.sample < info.occurrences then cfg.sample else info.occurrences;
    Row(labels, k, info.props[k].types, info.props[k].occurrences == effective)
  }

  ghost predicate Reported(row: Row, labels: set<string>, info: Info, cfg: Config) {
    row.labels == labels &&
    if info.props == map[] then row == Row(labels, "", {}, false)
    else row.prop in info.props && row == RowFor(labels, info, row.prop, cfg)
  }

  /** The comparison with the effective count says "every sampled node". */
  lemma {:induction false} ReportedIsDeserved(row: Row, table: Table, nodes: seq<Node>, cfg: Config)
    requires TableOk(table, nodes, cfg)
    ensures row.labels in table && Reported(row, row.labels, table[row.labels], cfg) <==> Deserved(row, nodes, cfg)
  {
    var group := Group(nodes, cfg, row.labels);
    var sampled := Sampled(group, cfg);
    assert Describes(table, row.labels, group, cfg);
    if row.labels in table {
      CountersMean(sampled, row.prop);
      CountIsAllIff(sampled, row.prop);
      EmptyCounters(sampled);
    }
  }

  lemma {:induction false} EmptyCounters(ns: seq<Node>)
    ensures Counters(ns) == map[] <==> !SomeProps(ns)
  {
    if n :| n in ns && n.props != map[] {
      var k :| k in n.props.Keys;
      CountIsAllIff(ns, k);
      CountersMean(ns, k);
      assert Carries(n, k);
    } else {
      forall k ensures k !in Counters(ns) {
        CountersMean(ns, k);
        CountIsAllIff(ns, k);
      }
    }
  }

  // ---- the rows, read off the nodes alone

  /** The relationships the limit lets the scan look at. */
  predicate InReach(rels: seq<string>, cfg: Config, i: int) {
    0 <= i < |rels| && (cfg.maxRels <= 0 || i < cfg.maxRels)
  }

  /** A node the caller's lists let through, label by label and relationship by
      relationship. */
  ghost predicate Wanted(n: Node, cfg: Config) {
    && (cfg.includeLabels == {} || exists l :: l in n.labels && l in cfg.includeLabels)
    && (forall l :: l in n.labels ==> l !in cfg.excludeLabels)
    && (cfg.includeRels == {} || exists i :: InReach(n.rels, cfg, i) && n.rels[i] in cfg.includeRels)
    && (forall i :: InReach(n.rels, cfg, i) ==> n.rels[i] !in cfg.excludeRels)
  }

  lemma {:induction false} AcceptedMeans(n: Node, cfg: Config)
    ensures Accepted(n, cfg) <==> Wanted(n, cfg)
  {
    var looked := Looked(n.rels, cfg);
    assert forall i :: InReach(n.rels, cfg, i) <==> 0 <= i < |looked|;
    assert forall i :: 0 <= i < |looked| ==> looked[i] == n.rels[i];
    assert forall t :: t in looked <==> exists i :: InReach(n.rels, cfg, i) && n.rels[i] == t;
  }

  /** How many of the first `m` nodes with this label set are let through. */
  ghost function Earlier(nodes: seq<Node>, cfg: Config, labels: set<string>, m: nat): (c: nat)
    requires m <= |nodes|
  {
    if m == 0 then 0
    else
      Earlier(nodes, cfg, labels, m - 1) + if nodes[m - 1].labels == labels && Wanted(nodes[m - 1], cfg) then 1 else 0
  }

  /** Node `i` is let through and among the first `sample` of its label set, if
      that is positive. */
  ghost predicate Counted(nodes: seq<Node>, cfg: Config, labels: set<string>, i: int) {
    && 0 <= i < |nodes| && nodes[i].labels == labels && Wanted(nodes[i], cfg)
    && (cfg.sample <= 0 || Earlier(nodes, cfg, labels, i) < cfg.sample)
  }

  lemma {:induction false} SampledBy(group: seq<Node>, n: Node, cfg: Config)
    ensures Sampled(group + [n], cfg) ==
            if cfg.sample <= 0 || |group| < cfg.sample then Sampled(group, cfg) + [n] else Sampled(group, cfg)
  {
    if cfg.sample > 0 && |group| >= cfg.sample { assert (group + [n])[..cfg.sample] == group[..cfg.sample]; }
  }

  ghost predicate Among(nodes: seq<Node>, cfg: Config, labels: set<string>, m: nat, n: Node) {
    exists i :: i < m && Counted(nodes, cfg, labels, i) && nodes[i] == n
  }

  lemma {:induction false} AmongNext(nodes: seq<Node>, cfg: Config, labels: set<string>, m: nat, n: Node)
    requires m < |nodes|
    ensures Among(nodes, cfg, labels, m + 1, n) <==>
            Among(nodes, cfg, labels, m, n) || (Counted(nodes, cfg, labels, m) && nodes[m] == n)
  {}

  lemma {:induction false} GroupSize(nodes: seq<Node>, cfg: Config, labels: set<string>, m: nat)
    requires m <= |nodes|
    ensures |Group(nodes[..m], cfg, labels)| == Earlier(nodes, cfg, labels, m)
  {
    if m > 0 {
      GroupSize(nodes, cfg, labels, m - 1);
      assert nodes[..m] == nodes[..m - 1] + [nodes[m - 1]];
      GroupNext(nodes[..m - 1], nodes[m - 1], cfg, labels);
      AcceptedMeans(nodes[m - 1], cfg);
    }
  }

  lemma {:induction false} SampledNode(nodes: seq<Node>, cfg: Config, labels: set<string>, m: nat, n: Node)
    requires m < |nodes|
    ensures n in Sampled(Group(nodes[..m + 1], cfg, labels), cfg) <==>
            n in Sampled(Group(nodes[..m], cfg, labels), cfg) || (Counted(nodes, cfg, labels, m) && nodes[m] == n)
  {
    assert nodes[..m + 1] == nodes[..m] + [nodes[m]];
    GroupNext(nodes[..m], nodes[m], cfg, labels);
    AcceptedMeans(nodes[m], cfg);
    GroupSize(nodes, cfg, labels, m);
    SampledBy(Group(nodes[..m], cfg, labels), nodes[m], cfg);
  }

  /** The sampled nodes of a group are those counted. */
  lemma {:induction false} SampledAreCounted(nodes: seq<Node>, cfg: Config, labels: set<string>, m: nat, n: Node)
    requires m <= |nodes|
    ensures n in Sampled(Group(nodes[..m], cfg, labels), cfg) <==> Among(nodes, cfg, labels, m, n)
  {
    if m > 0 {
      SampledAreCounted(nodes, cfg, labels, m - 1, n);
      SampledNode(nodes, cfg, labels, m - 1, n);
      AmongNext(nodes, cfg, labels, m - 1, n);
    }
  }

  ghost predicate SomeCounted(nodes: seq<Node>, cfg: Config, labels: set<string>) {
    exists i :: Counted(nodes, cfg, labels, i)
  }

  ghost predicate SomeCountedProps(nodes: seq<Node>, cfg: Config, labels: set<string>) {
    exists i :: Counted(nodes, cfg, labels, i) && nodes[i].props != map[]
  }

  ghost predicate SomeCountedHas(nodes: seq<Node>, cfg: Config, labels: set<string>, k: string) {
    exists i :: Counted(nodes, cfg, labels, i) && k in nodes[i].props
  }

  ghost predicate AllCountedHave(nodes: seq<Node>, cfg: Config, labels: set<string>, k: string) {
    forall i :: Counted(nodes, cfg, labels, i) ==> k in nodes[i].props
  }

  ghost predicate Typed(row: Row, nodes: seq<Node>, cfg: Config, t: string) {
    exists i :: Counted(nodes, cfg, row.labels, i) && row.prop in nodes[i].props && nodes[i].props[row.prop] == t
  }

  /** A row is due for a label set some node counts for.  It names a property that
      one of the counted nodes has, all types these give it, and says it is
      mandatory exactly if all of them have it; if none has any property, one
      empty row is due. */
  ghost predicate Due(row: Row, nodes: seq<Node>, cfg: Config) {
    && SomeCounted(nodes, cfg, row.labels)
    && if SomeCountedProps(nodes, cfg, row.labels) then
         && SomeCountedHas(nodes, cfg, row.labels, row.prop)
         && (forall t :: t in row.types <==> Typed(row, nodes, cfg, t))
         && (row.mandatory <==> AllCountedHave(nodes, cfg, row.labels, row.prop))
       else
         row.prop == "" && row.types == {} && !row.mandatory
  }

  lemma {:induction false} TypesAreTyped(row: Row, nodes: seq<Node>, cfg: Config, sampled: seq<Node>, t: string)
    requires forall n :: n in sampled <==> Among(nodes, cfg, row.labels, |nodes|, n)
    ensures t in TypesOf(sampled, row.prop) <==> Typed(row, nodes, cfg, t)
  {
    if t in TypesOf(sampled, row.prop) {
      var n :| n in sampled && Carries(n, row.prop) && n.props[row.prop] == t;
      var i :| 0 <= i < |nodes| && Counted(nodes, cfg, row.labels, i) && nodes[i] == n;
    }
    if Typed(row, nodes, cfg, t) {
      var i :| Counted(nodes, cfg, row.labels, i) && row.prop in nodes[i].props && nodes[i].props[row.prop] == t;
      assert Among(nodes, cfg, row.labels, |nodes|, nodes[i]);
    }
  }

  lemma {:induction false} CarriedBy(row: Row, nodes: seq<Node>, cfg: Config, sampled: seq<Node>)
    requires forall n :: n in sampled <==> Among(nodes, cfg, row.labels, |nodes|, n)
    ensures sampled != [] <==> SomeCounted(nodes, cfg, row.labels)
    ensures SomeProps(sampled) <==> SomeCountedProps(nodes, cfg, row.labels)
    ensures SomeCarries(sampled, row.prop) <==> SomeCountedHas(nodes, cfg, row.labels, row.prop)
    ensures AllCarry(sampled, row.prop) <==> AllCountedHave(nodes, cfg, row.labels, row.prop)
  {
    forall i | Counted(nodes, cfg, row.labels, i) ensures nodes[i] in sampled {
      assert Among(nodes, cfg, row.labels, |nodes|, nodes[i]);
    }
    if sampled != [] { assert sampled[0] in sampled; }
  }

  lemma {:induction false} DeservedIsDue(row: Row, nodes: seq<Node>, cfg: Config)
    ensures Deserved(row, nodes, cfg) <==> Due(row, nodes, cfg)
  {
    var group := Group(nodes, cfg, row.labels);
    var sampled := Sampled(group, cfg);
    assert nodes[..|nodes|] == nodes;
    forall n ensures n in sampled <==> Among(nodes, cfg, row.labels, |nodes|, n) {
      SampledAreCounted(nodes, cfg, row.labels, |nodes|, n);
    }
    CarriedBy(row, nodes, cfg, sampled);
    SameTypes(row, nodes, cfg, sampled);
  }

  lemma {:induction false} SameTypes(row: Row, nodes: seq<Node>, cfg: Config, sampled: seq<Node>)
    requires forall n :: n in sampled <==> Among(nodes, cfg, row.labels, |nodes|, n)
    ensures row.types == TypesOf(sampled, row.prop) <==> forall t :: t in row.types <==> Typed(row, nodes, cfg, t)
  {
    forall t ensures t in TypesOf(sampled, row.prop) <==> Typed(row, nodes, cfg, t) {
      TypesAreTyped(row, nodes, cfg, sampled, t);
    }
  }

  /** No row is reported twice. */
  predicate Once(rows: seq<Row>) {
    forall i, j :: 0 <= i < j < |rows| ==> rows[i] != rows[j]
  }

  method ReportGroup(labels: set<string>, info: Info, cfg: Config) returns (rows: seq<Row>)
    ensures forall row :: row in rows <==> Reported(row, labels, info, cfg)
    ensures Once(rows)
  {
    rows := [];
    var todo := info.props.Keys;
    while todo != {}
      invariant todo <= info.props.Keys
      invariant forall row :: row in rows <==>
                  row.prop in info.props && row.prop !in todo && row == RowFor(labels, info, row.prop, cfg)
      invariant Once(rows)
      decreases |todo|
    {
      var k :| k in todo;
      rows := rows + [RowFor(labels, info, k, cfg)];
      todo := todo - {k};
    }
    if info.props == map[] {
      rows := rows + [Row(labels, "", {}, false)];
    }
  }

  lemma {:induction false} OnceConcat(a: seq<Row>, b: seq<Row>)
    requires Once(a) && Once(b) && forall row :: row in a ==> row !in b
    ensures Once(a + b)
  {
    forall i, j | 0 <= i < j < |a + b| ensures (a + b)[i] != (a + b)[j] {
      if i < |a| <= j { assert (a + b)[i] in a && (a + b)[j] in b; }
    }
  }

  method Report(table: Table, cfg: Config) returns (rows: seq<Row>)
    ensures Once(rows)
    ensures forall row :: row in rows <==> row.labels in table && Reported(row, row.labels, table[row.labels], cfg)
  {
    rows := [];
    var todo := table.Keys;
    while todo != {}
      invariant todo <= table.Keys
      invariant forall row :: row in rows <==>
                  row.labels in table && row.labels !in todo && Reported(row, row.labels, table[row.labels], cfg)
      invariant Once(rows)
      decreases |todo|
    {
      var labels :| labels in todo;
      var more := ReportGroup(labels, table[labels], cfg);
      OnceConcat(rows, more);
      rows := rows + more;
      todo := todo - {labels};
    }
  }

  /** A property is reported for a label set exactly if one of the sampled nodes
      with exactly that label set carries it, with the types seen among them, and
      as mandatory exactly if all of them carry it. */
  method NodeTypeProperties(nodes: seq<Node>, cfg: Config) returns (r: Result)
    ensures r.Error? <==> cfg.sample < -1
    ensures r.Rows? ==> Once(r.rows) && forall row :: row in r.rows <==> Due(row, nodes, cfg)
  {
    if cfg.sample < -1 { return Error; }
    var table := ScanNodes(nodes, cfg);
    var rows := Report(table, cfg);
    forall row ensures row in rows <==> Due(row, nodes, cfg) {
      ReportedIsDeserved(row, table, nodes, cfg);
      DeservedIsDue(row, nodes, cfg);
    }
    r := Rows(rows);
  }
}
