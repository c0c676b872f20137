/** `schema.assert`: the indices and constraints of the database are brought to
    what the caller asks for, and every change is reported as a record. */
module SchemaAssert {
  import opened Colons

  datatype PairKind = PropertyIndex | ExistenceConstraint

  /** What the database can hold. */
  datatype Item =
    | LabelIndex(lab: string)
    | Pair(kind: PairKind, lab: string, prop: string)
    | Unique(lab: string, props: set<string>)

  datatype Action = Kept | Created | Dropped

  datatype Record = Record(action: Action, item: Item)

  /** A property list as the caller passes it: it need not be a list, and its
      elements need not be strings. */
  datatype PropItem = NotAString | Name(name: string)

  datatype Props = NotAList | PropList(items: seq<PropItem>)

  datatype Nested = NotNested | NestedList(lists: seq<Props>)

  // ---- the `label:property` strings

  function Join(lab: string, prop: string): (k: string) {
    lab + ":" + prop
  }

  /** The label and property of a joined string, cut at its first ':'.  Without
      one, `find` gives npos and both parts are the whole string. */
  function Split(k: string): (r: (string, string)) {
    var i := ColonAt(k);
    if i == |k| then (k, k) else (k[..i], k[i + 1..])
  }

  /** Splitting undoes joining exactly when the label has no ':' in it; joining
      undoes splitting whenever there is a ':' to split at. */
  lemma {:induction false} SplitJoinIff(lab: string, prop: string)
    ensures Split(Join(lab, prop)) == (lab, prop) <==> ':' !in lab
    ensures Join(Split(Join(lab, prop)).0, Split(Join(lab, prop)).1) == Join(lab, prop)
  {
    var k := Join(lab, prop);
    assert k[|lab|] == ':' && k[..|lab|] == lab && k[|lab| + 1..] == prop;
    var i := ColonAt(k);
    NoColonIn(k, i);
    assert k == k[..i] + [k[i]] + k[i + 1..];
    if ':' !in lab { FirstColon(k, |lab|); }
  }

  // ---- what is asked for

  /** The label index is asked for by an empty list or an empty name. */
  function WantedLabels(req: map<string, Props>): (r: set<Item>) {
    set l | l in req && req[l].PropList? && (req[l].items == [] || Name("") in req[l].items) :: LabelIndex(l)
  }

  predicate Wants(req: map<string, Props>, kind: PairKind, x: Item) {
    x.Pair? && x.kind == kind && x.lab in req && req[x.lab].PropList? && x.prop != "" &&
    Name(x.prop) in req[x.lab].items
  }

  function Items(p: Props): (r: seq<PropItem>) {
    if p.PropList? then p.items else []
  }

  function WantedPairs(req: map<string, Props>, kind: PairKind): (r: set<Item>)
    ensures forall x :: x in r <==> Wants(req, kind, x)
  {
    var r := set l, i | l in req && 0 <= i < |Items(req[l])| && Items(req[l])[i].Name? && Items(req[l])[i].name != ""
                     :: Pair(kind, l, Items(req[l])[i].name);
    assert forall x :: Wants(req, kind, x) ==> x in r by {
      forall x | Wants(req, kind, x) ensures x in r {
        var i :| 0 <= i < |req[x.lab].items| && req[x.lab].items[i] == Name(x.prop);
        assert x == Pair(kind, x.lab, Items(req[x.lab])[i].name);
      }
    }
    r
  }

  predicate ValidProps(p: Props) {
    p.PropList? && p.items != [] && forall x :: x in p.items ==> x.Name? && x.name != ""
  }

  function PropSet(p: Props): (r: set<string>) {
    set x | x in Items(p) && x.Name? :: x.name
  }

  function NestedLists(n: Nested): (r: seq<Props>) {
    if n.NestedList? then n.lists else []
  }

  function WantedUnique(req: map<string, Nested>): (r: set<Item>) {
    set l, p | l in req && p in NestedLists(req[l]) && ValidProps(p) :: Unique(l, PropSet(p))
  }

  // ---- what the run leads to

  function KeyOf(x: Item): (k: string)
    requires x.Pair?
  {
    Join(x.lab, x.prop)
  }

  /** The strings the database lists its pairs of one kind by. */
  function Listed(db: set<Item>, kind: PairKind): (r: set<string>) {
    set x | x in db && x.Pair? && x.kind == kind :: KeyOf(x)
  }

  function Keys(xs: set<Item>): (r: set<string>) {
    set x | x in xs && x.Pair? :: KeyOf(x)
  }

  /** Asked-for pairs whose string the database does not list. */
  function FreshPairs(db: set<Item>, wanted: set<Item>, kind: PairKind): (r: set<Item>) {
    set x | x in wanted && x.Pair? && KeyOf(x) !in Listed(db, kind)
  }

  /** The pairs split from listed strings nobody asked for. */
  function StalePairs(db: set<Item>, wanted: set<Item>, kind: PairKind): (r: set<Item>) {
    set k | k in Listed(db, kind) - Keys(wanted) :: Pair(kind, Split(k).0, Split(k).1)
  }

  /** Label indices recorded as asserted: one for an empty list only if it had to
      be created. */
  function AssertedLabels(db: set<Item>, req: map<string, Props>): (r: set<Item>) {
    set l | l in req && req[l].PropList? &&
            (Name("") in req[l].items || (req[l].items == [] && LabelIndex(l) !in db)) :: LabelIndex(l)
  }

  function StaleLabels(db: set<Item>, req: map<string, Props>): (r: set<Item>) {
    set x | x in db && x.LabelIndex? && x !in AssertedLabels(db, req)
  }

  /** The pairs of one kind after creating and dropping. */
  function FinalPairs(db: set<Item>, wanted: set<Item>, kind: PairKind): (r: set<Item>) {
    OfKind(db, kind) + FreshPairs(db, wanted, kind) - StalePairs(db, wanted, kind)
  }

  function OfKind(db: set<Item>, kind: PairKind): (r: set<Item>) {
    set x | x in db && x.Pair? && x.kind == kind
  }

  function AfterIndices(db: set<Item>, req: map<string, Props>, drop: bool): (r: set<Item>) {
    var wanted := WantedPairs(req, PropertyIndex);
    var added := db + WantedLabels(req) + FreshPairs(db, wanted, PropertyIndex);
    if drop then added - StaleLabels(db, req) - StalePairs(db, wanted, PropertyIndex) else added
  }

  function AfterExistence(db: set<Item>, req: map<string, Props>, drop: bool): (r: set<Item>) {
    var wanted := WantedPairs(req, ExistenceConstraint);
    var added := db + FreshPairs(db, wanted, ExistenceConstraint);
    if drop then added - StalePairs(db, wanted, ExistenceConstraint) else added
  }

  function AfterUnique(db: set<Item>, req: map<string, Nested>, drop: bool): (r: set<Item>) {
    var added := db + WantedUnique(req);
    if drop then added - (set x | x in db && x.Unique? && x !in WantedUnique(req)) else added
  }

  function AfterAssert(db: set<Item>, indices: map<string, Props>, unique: map<string, Nested>,
      existence: map<string, Props>, drop: bool): (r: set<Item>)
  {
    AfterUnique(AfterExistence(AfterIndices(db, indices, drop), existence, drop), unique, drop)
  }

  /** What the caller asked the database to hold. */
  function Requested(indices: map<string, Props>, unique: map<string, Nested>,
      existence: map<string, Props>): (r: set<Item>) {
    WantedLabels(indices) + WantedPairs(indices, PropertyIndex)
    + WantedPairs(existence, ExistenceConstraint) + WantedUnique(unique)
  }

  // ---- convergence

  /** No string stands for two pairs that matter, and every pair to be dropped can
      be read back from its string. */
  ghost predicate Unambiguous(db: set<Item>, wanted: set<Item>, kind: PairKind) {
    && (forall x :: x in wanted && x.Pair? && KeyOf(x) in Listed(db, kind) ==> x in db)
    && (forall y :: y in OfKind(db, kind) && y !in wanted ==> KeyOf(y) !in Keys(wanted) && ':' !in y.lab)
  }

  /** An unasked pair of the database is dropped exactly when its string is not
      asked for and its label has no ':' in it. */
  lemma {:induction false} DroppedIff(db: set<Item>, wanted: set<Item>, kind: PairKind, y: Item)
    requires y in OfKind(db, kind)
    ensures y in StalePairs(db, wanted, kind) <==> KeyOf(y) !in Keys(wanted) && ':' !in y.lab
  {
    SplitJoinIff(y.lab, y.prop);
    if y in StalePairs(db, wanted, kind) {
      var k :| k in Listed(db, kind) - Keys(wanted) && y == Pair(kind, Split(k).0, Split(k).1);
      var z :| z in db && z.Pair? && z.kind == kind && k == KeyOf(z);
      SplitJoinIff(z.lab, z.prop);
    } else {
      assert KeyOf(y) in Listed(db, kind);
    }
  }

  /** A dropped pair has a listed string, so nothing just created is dropped. */
  lemma {:induction false} StaleAreListed(db: set<Item>, wanted: set<Item>, kind: PairKind, y: Item)
    requires y in StalePairs(db, wanted, kind)
    ensures y.Pair? && y.kind == kind && KeyOf(y) in Listed(db, kind) && KeyOf(y) !in Keys(wanted)
  {
    var k :| k in Listed(db, kind) - Keys(wanted) && y == Pair(kind, Split(k).0, Split(k).1);
    var z :| z in db && z.Pair? && z.kind == kind && k == KeyOf(z);
    SplitJoinIff(z.lab, z.prop);
  }

  /** The pairs of one kind end up as asked exactly when the strings are
      unambiguous. */
  lemma {:induction false} PairsConvergeIff(db: set<Item>, req: map<string, Props>, kind: PairKind)
    ensures var wanted := WantedPairs(req, kind);
            FinalPairs(db, wanted, kind) == wanted <==> Unambiguous(db, wanted, kind)
  {
    var wanted := WantedPairs(req, kind);
    var final := FinalPairs(db, wanted, kind);
    forall x | x in wanted ensures x in final <==> KeyOf(x) !in Listed(db, kind) || x in db {
      if x in StalePairs(db, wanted, kind) { StaleAreListed(db, wanted, kind, x); }
    }
    forall y | y in OfKind(db, kind) && y !in wanted
      ensures y in final <==> !(KeyOf(y) !in Keys(wanted) && ':' !in y.lab)
    {
      DroppedIff(db, wanted, kind, y);
    }
    forall y | y in final && y !in wanted ensures y in OfKind(db, kind) {}
    if Unambiguous(db, wanted, kind) { assert final == wanted; }
    if final == wanted {
      forall x | x in wanted && x.Pair? && KeyOf(x) in Listed(db, kind) ensures x in db { assert x in final; }
      forall y | y in OfKind(db, kind) && y !in wanted ensures KeyOf(y) !in Keys(wanted) && ':' !in y.lab {
        assert y !in final;
      }
    }
  }

  /** Labels without ':' are never ambiguous. */
  lemma {:induction false} ColonFreeIsUnambiguous(db: set<Item>, req: map<string, Props>, kind: PairKind)
    requires forall x :: x in OfKind(db, kind) ==> ':' !in x.lab
    requires forall l :: l in req ==> ':' !in l
    ensures Unambiguous(db, WantedPairs(req, kind), kind)
  {
    var wanted := WantedPairs(req, kind);
    forall x, y | x in wanted && y in OfKind(db, kind) && KeyOf(x) == KeyOf(y) ensures x == y {
      SplitJoinIff(x.lab, x.prop);
      SplitJoinIff(y.lab, y.prop);
    }
  }

  /** No empty list for a label that is already indexed. */
  ghost predicate NoEmptyRepeat(db: set<Item>, req: map<string, Props>) {
    forall l :: l in req && req[l] == PropList([]) ==> LabelIndex(l) !in db
  }

  /** The four parts of the database do not interfere. */
  lemma {:induction false} PartsAreIndependent(db: set<Item>, indices: map<string, Props>, unique: map<string, Nested>,
      existence: map<string, Props>, x: Item)
    ensures var r := AfterAssert(db, indices, unique, existence, true);
            match x
            case LabelIndex(_) => x in r <==> x in AssertedLabels(db, indices)
            case Pair(PropertyIndex, _, _) =>
              x in r <==> x in FinalPairs(db, WantedPairs(indices, PropertyIndex), PropertyIndex)
            case Pair(ExistenceConstraint, _, _) =>
              x in r <==> x in FinalPairs(db, WantedPairs(existence, ExistenceConstraint), ExistenceConstraint)
            case Unique(_, _) => x in r <==> x in WantedUnique(unique)
  {
    var db1 := AfterIndices(db, indices, true);
    var db2 := AfterExistence(db1, existence, true);
    match x
    case LabelIndex(l) =>
      LabelPart(db, indices, l);
    case Pair(PropertyIndex, _, _) =>
    case Pair(ExistenceConstraint, _, _) =>
      ListedAlike(db, db1, ExistenceConstraint, indices, true);
    case Unique(_, _) =>
      assert x in db <==> x in db2;
  }

  lemma {:induction false} LabelPart(db: set<Item>, req: map<string, Props>, l: string)
    ensures LabelIndex(l) in AfterIndices(db, req, true) <==> LabelIndex(l) in AssertedLabels(db, req)
    ensures LabelIndex(l) in AssertedLabels(db, req) ==> LabelIndex(l) in WantedLabels(req)
  {}

  lemma {:induction false} ListedAlike(db: set<Item>, db1: set<Item>, kind: PairKind, indices: map<string, Props>,
      drop: bool)
    requires db1 == AfterIndices(db, indices, drop) && kind == ExistenceConstraint
    ensures OfKind(db1, kind) == OfKind(db, kind) && Listed(db1, kind) == Listed(db, kind)
  {
    forall x: Item | x.Pair? && x.kind == kind ensures x in db1 <==> x in db {}
    assert OfKind(db1, kind) == OfKind(db, kind);
    forall k ensures k in Listed(db1, kind) <==> k in Listed(db, kind) {
      if x :| x in db && x.Pair? && x.kind == kind && k == KeyOf(x) { assert x in db1; }
      if x :| x in db1 && x.Pair? && x.kind == kind && k == KeyOf(x) { assert x in db; }
    }
  }

  lemma {:induction false} LabelsConvergeIff(db: set<Item>, req: map<string, Props>)
    ensures AssertedLabels(db, req) == WantedLabels(req) <==> NoEmptyRepeat(db, req)
  {
    if AssertedLabels(db, req) == WantedLabels(req) {
      forall l | l in req && req[l] == PropList([]) ensures LabelIndex(l) !in db {
        assert LabelIndex(l) in WantedLabels(req);
      }
    }
  }

  /** From every prior state, `assert` with `drop_existing` ends with exactly what
      was requested, if and only if no empty list repeats an existing label index
      and the `label:property` strings are unambiguous. */
  lemma {:induction false} AssertConvergesIff(db: set<Item>, indices: map<string, Props>, unique: map<string, Nested>,
      existence: map<string, Props>)
    ensures AfterAssert(db, indices, unique, existence, true) == Requested(indices, unique, existence) <==>
            && NoEmptyRepeat(db, indices)
            && Unambiguous(db, WantedPairs(indices, PropertyIndex), PropertyIndex)
            && Unambiguous(db, WantedPairs(existence, ExistenceConstraint), ExistenceConstraint)
  {
    var p, e := WantedPairs(indices, PropertyIndex), WantedPairs(existence, ExistenceConstraint);
    LabelsConvergeIff(db, indices);
    PairsConvergeIff(db, indices, PropertyIndex);
    PairsConvergeIff(db, existence, ExistenceConstraint);
    AssertByKind(db, indices, unique, existence);
    SplitByKind(AssertedLabels(db, indices), FinalPairs(db, p, PropertyIndex), FinalPairs(db, e, ExistenceConstraint),
                WantedLabels(indices), p, e, WantedUnique(unique));
  }

  lemma {:induction false} AssertByKind(db: set<Item>, indices: map<string, Props>, unique: map<string, Nested>,
      existence: map<string, Props>)
    ensures AfterAssert(db, indices, unique, existence, true) ==
            AssertedLabels(db, indices)
            + FinalPairs(db, WantedPairs(indices, PropertyIndex), PropertyIndex)
            + FinalPairs(db, WantedPairs(existence, ExistenceConstraint), ExistenceConstraint)
            + WantedUnique(unique)
    ensures forall x :: x in FinalPairs(db, WantedPairs(indices, PropertyIndex), PropertyIndex) ==>
              x.Pair? && x.kind == PropertyIndex
    ensures forall x :: x in FinalPairs(db, WantedPairs(existence, ExistenceConstraint), ExistenceConstraint) ==>
              x.Pair? && x.kind == ExistenceConstraint
  {
    var r := AfterAssert(db, indices, unique, existence, true);
    var l, u := AssertedLabels(db, indices), WantedUnique(unique);
    var p := FinalPairs(db, WantedPairs(indices, PropertyIndex), PropertyIndex);
    var e := FinalPairs(db, WantedPairs(existence, ExistenceConstraint), ExistenceConstraint);
    forall x ensures x in r <==> x in l + p + e + u {
      PartsAreIndependent(db, indices, unique, existence, x);
    }
  }

  lemma {:induction false} SplitByKind(l: set<Item>, p: set<Item>, e: set<Item>, l': set<Item>, p': set<Item>,
      e': set<Item>, u: set<Item>)
    requires forall x :: x in l || x in l' ==> x.LabelIndex?
    requires forall x :: x in p || x in p' ==> x.Pair? && x.kind == PropertyIndex
    requires forall x :: x in e || x in e' ==> x.Pair? && x.kind == ExistenceConstraint
    requires forall x :: x in u ==> x.Unique?
    ensures l + p + e + u == l' + p' + e' + u <==> l == l' && p == p' && e == e'
  {
    if l + p + e + u == l' + p' + e' + u {
      forall x ensures (x in l <==> x in l') && (x in p <==> x in p') && (x in e <==> x in e') {
        assert x in l + p + e + u <==> x in l' + p' + e' + u;
      }
    }
  }

  /** The pairs of one kind, once settled, stay: whatever string is listed after a
      run was wanted or could not be dropped. */
  lemma {:induction false} FinalPairsSettle(db: set<Item>, wanted: set<Item>, kind: PairKind)
    requires forall x :: x in wanted ==> x.Pair? && x.kind == kind
    ensures var r := FinalPairs(db, wanted, kind); FinalPairs(r, wanted, kind) == r
  {
    var r := FinalPairs(db, wanted, kind);
    assert OfKind(r, kind) == r by {
      forall x | x in r ensures x.Pair? && x.kind == kind {}
    }
    forall x | x in wanted ensures KeyOf(x) in Listed(r, kind) { WantedStaysListed(db, wanted, kind, x); }
    forall y | y in r ensures y !in StalePairs(r, wanted, kind) {
      DroppedIff(r, wanted, kind, y);
      if y in wanted { assert KeyOf(y) in Keys(wanted); } else { DroppedIff(db, wanted, kind, y); }
    }
  }

  /** A wanted string is listed after the run: by the wanted pair if it was not
      listed before, else by the pair that listed it. */
  lemma {:induction false} WantedStaysListed(db: set<Item>, wanted: set<Item>, kind: PairKind, x: Item)
    requires x in wanted && x.Pair? && x.kind == kind
    ensures KeyOf(x) in Listed(FinalPairs(db, wanted, kind), kind)
  {
    var r := FinalPairs(db, wanted, kind);
    assert KeyOf(x) in Keys(wanted);
    if KeyOf(x) in Listed(db, kind) {
      var y :| y in db && y.Pair? && y.kind == kind && KeyOf(x) == KeyOf(y);
      DroppedIff(db, wanted, kind, y);
      assert y in r;
    } else {
      assert x in r by { if x in StalePairs(db, wanted, kind) { StaleAreListed(db, wanted, kind, x); } }
    }
  }

  lemma {:induction false} SecondByKind(db: set<Item>, indices: map<string, Props>, unique: map<string, Nested>,
      existence: map<string, Props>)
    ensures var r := AfterAssert(db, indices, unique, existence, true);
            AfterAssert(r, indices, unique, existence, true) == r <==>
            AssertedLabels(r, indices) == AssertedLabels(db, indices)
  {
    var r := AfterAssert(db, indices, unique, existence, true);
    var wp, we := WantedPairs(indices, PropertyIndex), WantedPairs(existence, ExistenceConstraint);
    var u := WantedUnique(unique);
    var p, e := FinalPairs(db, wp, PropertyIndex), FinalPairs(db, we, ExistenceConstraint);
    AssertByKind(db, indices, unique, existence);
    AssertByKind(r, indices, unique, existence);
    assert FinalPairs(r, wp, PropertyIndex) == p by { PartSettles(r, p, wp, db, PropertyIndex); }
    assert FinalPairs(r, we, ExistenceConstraint) == e by { PartSettles(r, e, we, db, ExistenceConstraint); }
    SplitByKind(AssertedLabels(r, indices), p, e, AssertedLabels(db, indices), p, e, u);
  }

  lemma {:induction false} PartSettles(r: set<Item>, p: set<Item>, wanted: set<Item>, db: set<Item>, kind: PairKind)
    requires p == FinalPairs(db, wanted, kind) && forall x :: x in wanted ==> x.Pair? && x.kind == kind
    requires forall x :: x in p <==> x in r && x.Pair? && x.kind == kind
    ensures FinalPairs(r, wanted, kind) == p
  {
    FinalPairsSettle(db, wanted, kind);
    assert OfKind(r, kind) == OfKind(p, kind) == p;
    assert Listed(r, kind) == Listed(p, kind);
  }

  /** From every database, a second identical run changes nothing if and only if
      no property list is empty. */
  lemma {:induction false} SecondRunIff(db: set<Item>, indices: map<string, Props>, unique: map<string, Nested>,
      existence: map<string, Props>)
    ensures var r := AfterAssert(db, indices, unique, existence, true);
            AfterAssert(r, indices, unique, existence, true) == r <==> NoEmptyList(indices)
  {
    var r := AfterAssert(db, indices, unique, existence, true);
    SecondByKind(db, indices, unique, existence);
    forall l | l in indices && indices[l] == PropList([])
      ensures LabelIndex(l) in AssertedLabels(r, indices) <==> LabelIndex(l) !in AssertedLabels(db, indices)
    {
      EmptyListToggles(db, indices, unique, existence, l);
      EmptyListToggles(r, indices, unique, existence, l);
    }
  }

  /** The database is what some run of the same request left behind. */
  ghost predicate Settled(db: set<Item>, indices: map<string, Props>, unique: map<string, Nested>,
      existence: map<string, Props>) {
    exists db0 :: db == AfterAssert(db0, indices, unique, existence, true)
  }

  predicate NoEmptyList(indices: map<string, Props>) {
    forall l :: l in indices ==> indices[l] != PropList([])
  }

  lemma {:induction false} SettledStays(db: set<Item>, indices: map<string, Props>, unique: map<string, Nested>,
      existence: map<string, Props>)
    requires Settled(db, indices, unique, existence) && NoEmptyList(indices)
    ensures AfterAssert(db, indices, unique, existence, true) == db
  {
    var db0 :| db == AfterAssert(db0, indices, unique, existence, true);
    SecondRunIff(db0, indices, unique, existence);
  }

  /** An existing index whose label contains ':' is not dropped when nothing is
      asked for: the string is split into another pair. */
  lemma {:induction false} ColonLabelStays()
    ensures var db := {Pair(PropertyIndex, "a:b", "c")};
            AfterAssert(db, map[], map[], map[], true) == db && Requested(map[], map[], map[]) == {}
  {
    var db, y := {Pair(PropertyIndex, "a:b", "c")}, Pair(PropertyIndex, "a:b", "c");
    assert ':' in y.lab by { assert y.lab[1] == ':'; }
    assert WantedPairs(map[], PropertyIndex) == {};
    assert WantedPairs(map[], ExistenceConstraint) == {};
    AssertByKind(db, map[], map[], map[]);
    DroppedIff(db, {}, PropertyIndex, y);
    assert FinalPairs(db, {}, PropertyIndex) == db;
    assert FinalPairs(db, {}, ExistenceConstraint) == {};
  }

  /** An existing index on `a` and `b:c` hides a wanted one on `a:b` and `c`. */
  lemma {:induction false} HiddenByAnother()
    ensures var db := {Pair(PropertyIndex, "a", "b:c")};
            var indices := map["a:b" := PropList([Name("c")])];
            Pair(PropertyIndex, "a:b", "c") in Requested(indices, map[], map[]) &&
            Pair(PropertyIndex, "a:b", "c") !in AfterAssert(db, indices, map[], map[], true)
  {
    var db, x, y := {Pair(PropertyIndex, "a", "b:c")}, Pair(PropertyIndex, "a:b", "c"), Pair(PropertyIndex, "a", "b:c");
    var indices := map["a:b" := PropList([Name("c")])];
    assert Wants(indices, PropertyIndex, x);
    assert KeyOf(x) == KeyOf(y) && KeyOf(y) in Listed(db, PropertyIndex);
    PartsAreIndependent(db, indices, map[], map[], x);
  }

  /** An empty list toggles its label index: present before, absent after. */
  lemma {:induction false} EmptyListToggles(db: set<Item>, indices: map<string, Props>, unique: map<string, Nested>,
      existence: map<string, Props>, l: string)
    requires l in indices && indices[l] == PropList([])
    ensures LabelIndex(l) in AfterAssert(db, indices, unique, existence, true) <==> LabelIndex(l) !in db
  {
    PartsAreIndependent(db, indices, unique, existence, LabelIndex(l));
  }

  /** Every asked-for pair whose string is listed is there itself. */
  ghost predicate NotTaken(db: set<Item>, wanted: set<Item>, kind: PairKind) {
    forall x :: x in wanted && x.Pair? && KeyOf(x) in Listed(db, kind) ==> x in db
  }

  lemma {:induction false} WithoutDrop(db: set<Item>, indices: map<string, Props>, unique: map<string, Nested>,
      existence: map<string, Props>)
    ensures AfterAssert(db, indices, unique, existence, false) ==
            db + WantedLabels(indices)
            + FreshPairs(db, WantedPairs(indices, PropertyIndex), PropertyIndex)
            + FreshPairs(db, WantedPairs(existence, ExistenceConstraint), ExistenceConstraint)
            + WantedUnique(unique)
  {
    ListedAlike(db, AfterIndices(db, indices, false), ExistenceConstraint, indices, false);
  }

  /** Without `drop_existing` everything is kept and what was requested is added,
      if and only if no existing string hides a requested pair. */
  lemma {:induction false} AssertAddsIff(db: set<Item>, indices: map<string, Props>, unique: map<string, Nested>,
      existence: map<string, Props>)
    ensures AfterAssert(db, indices, unique, existence, false) == db + Requested(indices, unique, existence) <==>
            && NotTaken(db, WantedPairs(indices, PropertyIndex), PropertyIndex)
            && NotTaken(db, WantedPairs(existence, ExistenceConstraint), ExistenceConstraint)
  {
    var r, all := AfterAssert(db, indices, unique, existence, false), db + Requested(indices, unique, existence);
    var p, e := WantedPairs(indices, PropertyIndex), WantedPairs(existence, ExistenceConstraint);
    WithoutDrop(db, indices, unique, existence);
    if r == all {
      forall x | x in p && KeyOf(x) in Listed(db, PropertyIndex) ensures x in db { assert x in r; }
      forall x | x in e && KeyOf(x) in Listed(db, ExistenceConstraint) ensures x in db { assert x in r; }
    }
  }

  // ---- the outcome, item by item, read off the request

  /** The label's value is a list and this string is in it. */
  predicate Lists(req: map<string, Props>, l: string, name: string) {
    l in req && req[l].PropList? && exists i :: 0 <= i < |req[l].items| && req[l].items[i] == Name(name)
  }

  predicate ListsNothing(req: map<string, Props>, l: string) {
    l in req && req[l] == PropList([])
  }

  /** A list of strings, none empty and at least one, that names these properties. */
  ghost predicate NamesExactly(p: Props, props: set<string>) {
    && p.PropList? && p.items != []
    && (forall i :: 0 <= i < |p.items| ==> p.items[i].Name? && p.items[i].name != "")
    && (forall name :: name in props <==> exists i :: 0 <= i < |p.items| && p.items[i] == Name(name))
  }

  ghost predicate AsksUnique(req: map<string, Nested>, l: string, props: set<string>) {
    l in req && req[l].NestedList? && exists j :: 0 <= j < |req[l].lists| && NamesExactly(req[l].lists[j], props)
  }

  /** Some pair asked for has this joined name. */
  ghost predicate JoinedAsked(req: map<string, Props>, k: string) {
    exists l, name :: Lists(req, l, name) && name != "" && k == l + ":" + name
  }

  /** Some pair of the database has this joined name. */
  ghost predicate JoinedThere(db: set<Item>, kind: PairKind, k: string) {
    exists y :: y in db && y.Pair? && y.kind == kind && k == y.lab + ":" + y.prop
  }

  lemma {:induction false} WantedMeans(req: map<string, Props>, kind: PairKind, l: string, p: string)
    ensures Pair(kind, l, p) in WantedPairs(req, kind) <==> p != "" && Lists(req, l, p)
    ensures Join(l, p) in Keys(WantedPairs(req, kind)) <==> JoinedAsked(req, l + ":" + p)
  {
    var wanted := WantedPairs(req, kind);
    forall l', p' ensures Pair(kind, l', p') in wanted <==> p' != "" && Lists(req, l', p') {
      assert Wants(req, kind, Pair(kind, l', p')) <==> p' != "" && Lists(req, l', p');
    }
    if Join(l, p) in Keys(wanted) {
      var x :| x in wanted && x.Pair? && Join(l, p) == KeyOf(x);
      assert x == Pair(kind, x.lab, x.prop);
    }
    if JoinedAsked(req, l + ":" + p) {
      var l', name :| Lists(req, l', name) && name != "" && l + ":" + p == l' + ":" + name;
      assert KeyOf(Pair(kind, l', name)) == Join(l, p);
    }
  }

  lemma {:induction false} ListedMeans(db: set<Item>, kind: PairKind, k: string)
    ensures k in Listed(db, kind) <==> JoinedThere(db, kind, k)
  {
    if JoinedThere(db, kind, k) {
      var y :| y in db && y.Pair? && y.kind == kind && k == y.lab + ":" + y.prop;
      assert KeyOf(y) == k;
    }
  }

  lemma {:induction false} UniqueMeans(req: map<string, Nested>, l: string, props: set<string>)
    ensures Unique(l, props) in WantedUnique(req) <==> AsksUnique(req, l, props)
  {
    if Unique(l, props) in WantedUnique(req) {
      var p :| p in NestedLists(req[l]) && ValidProps(p) && props == PropSet(p);
      var j :| 0 <= j < |req[l].lists| && req[l].lists[j] == p;
      assert NamesExactly(req[l].lists[j], props);
    }
    if AsksUnique(req, l, props) {
      var j :| 0 <= j < |req[l].lists| && NamesExactly(req[l].lists[j], props);
      var p := req[l].lists[j];
      assert ValidProps(p) && PropSet(p) == props;
      assert p in NestedLists(req[l]);
    }
  }

  /** What the database holds afterwards.
      With dropping: a label index its list names by the empty string, or asks for
      by being empty and was not there; a pair that was there and whose joined name
      is asked for or whose label has a ':', or that is asked for under a joined
      name not there yet; a unique constraint that is asked for.
      Without: all that was there, and what is asked for as above. */
  ghost predicate Holds(db: set<Item>, indices: map<string, Props>, unique: map<string, Nested>,
      existence: map<string, Props>, drop: bool, x: Item)
  {
    match x
    case LabelIndex(l) =>
      || Lists(indices, l, "")
      || (ListsNothing(indices, l) && (!drop || x !in db))
      || (!drop && x in db)
    case Pair(kind, l, p) =>
      var req, k := if kind == PropertyIndex then indices else existence, l + ":" + p;
      || (x in db && (!drop || JoinedAsked(req, k) || ':' in l))
      || (p != "" && Lists(req, l, p) && !JoinedThere(db, kind, k))
    case Unique(l, props) =>
      AsksUnique(unique, l, props) || (!drop && x in db)
  }

  lemma {:induction false} FinalPairMeans(db: set<Item>, req: map<string, Props>, kind: PairKind, l: string, p: string)
    ensures var x, k := Pair(kind, l, p), l + ":" + p;
            x in FinalPairs(db, WantedPairs(req, kind), kind) <==>
              || (x in db && (JoinedAsked(req, k) || ':' in l))
              || (p != "" && Lists(req, l, p) && !JoinedThere(db, kind, k))
  {
    var x, wanted := Pair(kind, l, p), WantedPairs(req, kind);
    WantedMeans(req, kind, l, p);
    ListedMeans(db, kind, l + ":" + p);
    if x in StalePairs(db, wanted, kind) { StaleAreListed(db, wanted, kind, x); }
    if x in db { DroppedIff(db, wanted, kind, x); }
  }

  lemma {:induction false} AssertMeans(db: set<Item>, indices: map<string, Props>, unique: map<string, Nested>,
      existence: map<string, Props>, drop: bool, x: Item)
    ensures x in AfterAssert(db, indices, unique, existence, drop) <==> Holds(db, indices, unique, existence, drop, x)
  {
    if drop {
      PartsAreIndependent(db, indices, unique, existence, x);
    } else {
      WithoutDrop(db, indices, unique, existence);
    }
    match x
    case LabelIndex(l) =>
      assert Lists(indices, l, "") <==> l in indices && indices[l].PropList? && Name("") in indices[l].items;
    case Pair(kind, l, p) =>
      var req := if kind == PropertyIndex then indices else existence;
      FinalPairMeans(db, req, kind, l, p);
      WantedMeans(req, kind, l, p);
      ListedMeans(db, kind, l + ":" + p);
    case Unique(l, props) =>
      UniqueMeans(unique, l, props);
  }

  // ---- the records

  function ItemsOf(log: seq<Record>, action: Action): (r: set<Item>) {
    set rec | rec in log && rec.action == action :: rec.item
  }

  predicate NoRepeat(log: seq<Record>) {
    forall i, j :: 0 <= i < j < |log| && log[i].action != Kept ==> log[i] != log[j]
  }

  /** The records are an edit script from one state to the other: what is created
      was not there, what is dropped was, and nothing is reported twice.  `kept`
      is reported as kept, and nothing else is. */
  ghost predicate Faithful(before: set<Item>, log: seq<Record>, after: set<Item>, kept: set<Item>) {
    && after == before + ItemsOf(log, Created) - ItemsOf(log, Dropped)
    && ItemsOf(log, Created) !! before && ItemsOf(log, Dropped) <= before
    && NoRepeat(log)
    && ItemsOf(log, Kept) == kept
  }

  /** The asked-for pairs whose string the database lists. */
  function KeptPairs(db: set<Item>, wanted: set<Item>, kind: PairKind): (r: set<Item>) {
    set x | x in wanted && x.Pair? && KeyOf(x) in Listed(db, kind)
  }

  /** Label indices asked for by an empty name that are there. */
  function KeptLabels(db: set<Item>, req: map<string, Props>): (r: set<Item>) {
    set l | l in req && req[l].PropList? && Name("") in req[l].items && LabelIndex(l) in db :: LabelIndex(l)
  }

  function KeptUnique(db: set<Item>, req: map<string, Nested>): (r: set<Item>) {
    set x | x in WantedUnique(req) && x in db
  }

  /** Everything a run reports as kept. */
  function KeptByAssert(db: set<Item>, indices: map<string, Props>, unique: map<string, Nested>,
      existence: map<string, Props>): (r: set<Item>) {
    KeptLabels(db, indices)
    + KeptPairs(db, WantedPairs(indices, PropertyIndex), PropertyIndex)
    + KeptPairs(db, WantedPairs(existence, ExistenceConstraint), ExistenceConstraint)
    + KeptUnique(db, unique)
  }

  /** Reported as kept: a label index named by the empty string that is there, a
      pair asked for whose joined name is there, a unique constraint asked for that
      is there. */
  lemma {:induction false} KeptMeans(db: set<Item>, indices: map<string, Props>, unique: map<string, Nested>,
      existence: map<string, Props>, x: Item)
    ensures x in KeptByAssert(db, indices, unique, existence) <==>
            match x
            case LabelIndex(l) => Lists(indices, l, "") && x in db
            case Pair(kind, l, p) =>
              p != "" && Lists(if kind == PropertyIndex then indices else existence, l, p) &&
              JoinedThere(db, kind, l + ":" + p)
            case Unique(l, props) => AsksUnique(unique, l, props) && x in db
  {
    match x
    case LabelIndex(l) =>
      assert Lists(indices, l, "") <==> l in indices && indices[l].PropList? && Name("") in indices[l].items;
    case Pair(kind, l, p) =>
      WantedMeans(if kind == PropertyIndex then indices else existence, kind, l, p);
      ListedMeans(db, kind, l + ":" + p);
    case Unique(l, props) =>
      UniqueMeans(unique, l, props);
  }

  /** When labels have no ':', what is reported as kept is exactly what was asked
      for and there, leaving aside empty lists. */
  lemma {:induction false} KeptIsRequestedAndThere(db: set<Item>, indices: map<string, Props>,
      unique: map<string, Nested>, existence: map<string, Props>)
    requires Unambiguous(db, WantedPairs(indices, PropertyIndex), PropertyIndex)
    requires Unambiguous(db, WantedPairs(existence, ExistenceConstraint), ExistenceConstraint)
    requires NoEmptyRepeat(db, indices)
    ensures KeptByAssert(db, indices, unique, existence) == db * Requested(indices, unique, existence)
  {
    var p, e := WantedPairs(indices, PropertyIndex), WantedPairs(existence, ExistenceConstraint);
    assert KeptPairs(db, p, PropertyIndex) == db * p;
    assert KeptPairs(db, e, ExistenceConstraint) == db * e;
    assert KeptLabels(db, indices) == db * WantedLabels(indices);
  }

  lemma {:induction false} LogStart(db: set<Item>)
    ensures Faithful(db, [], db, {})
  {}

  lemma {:induction false} LogKept(before: set<Item>, log: seq<Record>, after: set<Item>, kept: set<Item>, x: Item)
    requires Faithful(before, log, after, kept)
    ensures Faithful(before, log + [Record(Kept, x)], after, kept + {x})
  {
    ItemsAppend(log, Record(Kept, x));
  }

  lemma {:induction false} LogCreated(before: set<Item>, log: seq<Record>, after: set<Item>, kept: set<Item>, x: Item)
    requires Faithful(before, log, after, kept) && x !in after && x !in before
    ensures Faithful(before, log + [Record(Created, x)], after + {x}, kept)
  {
    ItemsAppend(log, Record(Created, x));
    assert forall r :: r in log ==> r.item in ItemsOf(log, r.action);
  }

  lemma {:induction false} LogDropped(before: set<Item>, log: seq<Record>, after: set<Item>, kept: set<Item>, x: Item)
    requires Faithful(before, log, after, kept) && x in after && x in before
    ensures Faithful(before, log + [Record(Dropped, x)], after - {x}, kept)
  {
    ItemsAppend(log, Record(Dropped, x));
    assert forall r :: r in log ==> r.item in ItemsOf(log, r.action);
  }

  lemma {:induction false} ItemsAppend(log: seq<Record>, rec: Record)
    ensures forall a :: ItemsOf(log + [rec], a) == ItemsOf(log, a) + if rec.action == a then {rec.item} else {}
  {
    forall a ensures ItemsOf(log + [rec], a) == ItemsOf(log, a) + if rec.action == a then {rec.item} else {} {
      assert forall r :: r in log + [rec] <==> r in log || r == rec;
    }
  }

  /** A faithful script that changes nothing reports nothing but "Kept". */
  lemma {:induction false} UnchangedMeansKept(db: set<Item>, log: seq<Record>, kept: set<Item>)
    requires Faithful(db, log, db, kept)
    ensures forall r :: r in log ==> r.action == Kept
  {
    assert forall r :: r in log ==> r.item in ItemsOf(log, r.action);
  }
}
