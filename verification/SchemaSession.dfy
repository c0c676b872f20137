/** The procedure `schema.assert` as it runs: loops over the request, creating
    and dropping entries of the database and emitting a record per step. */
module SchemaSession {
  import opened SchemaAssert

  /** The state and the request agree on one part of the database so far. */
  ghost predicate Same(before: set<Item>, db: set<Item>, part: Item -> bool) {
    forall x :: part(x) ==> (x in before <==> x in db)
  }

  predicate IsLabel(x: Item) { x.LabelIndex? }
  predicate IsPropertyIndex(x: Item) { x.Pair? && x.kind == PropertyIndex }
  predicate IsExistence(x: Item) { x.Pair? && x.kind == ExistenceConstraint }
  predicate IsUnique(x: Item) { x.Unique? }

  // ---- requests, one label at a time

  /** The new pairs a property list brings: named, and with an unlisted string. */
  function NewPairs(kind: PairKind, lab: string, items: seq<PropItem>, listed: set<string>): (r: set<Item>) {
    set x | x in items && x.Name? && x.name != "" && Join(lab, x.name) !in listed :: Pair(kind, lab, x.name)
  }

  function Names(items: seq<PropItem>): (r: set<string>) {
    set x | x in items && x.Name? && x.name != "" :: x.name
  }

  predicate AsksFor(kind: PairKind, lab: string, v: Props, x: Item) {
    x.Pair? && x.kind == kind && x.lab == lab && x.prop in Names(Items(v))
  }

  lemma {:induction false} NewPairsNext(kind: PairKind, lab: string, items: seq<PropItem>, i: nat, listed: set<string>)
    requires i < |items|
    ensures NewPairs(kind, lab, items[..i + 1], listed) ==
            NewPairs(kind, lab, items[..i], listed) +
            if items[i].Name? && items[i].name != "" && Join(lab, items[i].name) !in listed
            then {Pair(kind, lab, items[i].name)} else {}
    ensures Names(items[..i + 1]) ==
            Names(items[..i]) + if items[i].Name? && items[i].name != "" then {items[i].name} else {}
  {
    assert items[..i + 1] == items[..i] + [items[i]];
  }

  lemma {:induction false} WantedOfLabel(req: map<string, Props>, lab: string, v: Props, kind: PairKind, x: Item)
    requires lab !in req
    ensures x in WantedPairs(req[lab := v], kind) <==> x in WantedPairs(req, kind) || AsksFor(kind, lab, v, x)
  {
    assert Wants(req[lab := v], kind, x) <==> Wants(req, kind, x) || AsksFor(kind, lab, v, x);
  }

  lemma {:induction false} KeysOfLabel(req: map<string, Props>, lab: string, v: Props, kind: PairKind)
    requires lab !in req
    ensures Keys(WantedPairs(req[lab := v], kind)) ==
            Keys(WantedPairs(req, kind)) + set p | p in Names(Items(v)) :: Join(lab, p)
  {
    var wanted, wanted' := WantedPairs(req, kind), WantedPairs(req[lab := v], kind);
    forall x ensures x in wanted' <==> x in wanted || AsksFor(kind, lab, v, x) { WantedOfLabel(req, lab, v, kind, x); }
    forall p | p in Names(Items(v)) ensures Join(lab, p) in Keys(wanted') {
      assert Pair(kind, lab, p) in wanted' && KeyOf(Pair(kind, lab, p)) == Join(lab, p);
    }
    forall k | k in Keys(wanted) ensures k in Keys(wanted') {
      var x :| x in wanted && x.Pair? && k == KeyOf(x);
      assert x in wanted';
    }
  }

  lemma {:induction false} PairsOfLabel(db: set<Item>, req: map<string, Props>, lab: string, v: Props, kind: PairKind)
    requires lab !in req
    ensures FreshPairs(db, WantedPairs(req[lab := v], kind), kind) ==
            FreshPairs(db, WantedPairs(req, kind), kind) + NewPairs(kind, lab, Items(v), Listed(db, kind))
    ensures Keys(WantedPairs(req[lab := v], kind)) ==
            Keys(WantedPairs(req, kind)) + set p | p in Names(Items(v)) :: Join(lab, p)
  {
    KeysOfLabel(req, lab, v, kind);
    forall x
      ensures x in WantedPairs(req[lab := v], kind) <==> x in WantedPairs(req, kind) || AsksFor(kind, lab, v, x)
    {
      WantedOfLabel(req, lab, v, kind, x);
    }
  }

  lemma {:induction false} LabelsOfLabel(db: set<Item>, req: map<string, Props>, lab: string, v: Props)
    requires lab !in req
    ensures WantedLabels(req[lab := v]) ==
            WantedLabels(req) + if v.PropList? && (v.items == [] || Name("") in v.items) then {LabelIndex(lab)} else {}
    ensures AssertedLabels(db, req[lab := v]) ==
            AssertedLabels(db, req) +
            if v.PropList? && (Name("") in v.items || (v.items == [] && LabelIndex(lab) !in db))
            then {LabelIndex(lab)} else {}
  {}

  /** What one property of a label's list asks to be created. */
  function ItemFor(lab: string, p: PropItem, listed: set<string>): (r: set<Item>) {
    if !p.Name? then {}
    else if p.name == "" then {LabelIndex(lab)}
    else if Join(lab, p.name) in listed then {}
    else {Pair(PropertyIndex, lab, p.name)}
  }

  function ItemsFor(lab: string, items: seq<PropItem>, listed: set<string>): (r: set<Item>) {
    NewPairs(PropertyIndex, lab, items, listed) + if Name("") in items then {LabelIndex(lab)} else {}
  }

  function AllNames(items: seq<PropItem>): (r: set<string>) {
    Names(items) + if Name("") in items then {""} else {}
  }

  lemma {:induction false} ItemsForNext(lab: string, items: seq<PropItem>, i: nat, listed: set<string>)
    requires i < |items|
    ensures ItemsFor(lab, items[..i + 1], listed) == ItemsFor(lab, items[..i], listed) + ItemFor(lab, items[i], listed)
    ensures AllNames(items[..i + 1]) == AllNames(items[..i]) + if items[i].Name? then {items[i].name} else {}
  {
    NewPairsNext(PropertyIndex, lab, items, i, listed);
    assert items[..i + 1] == items[..i] + [items[i]];
  }

  // ---- what is reported as kept, one label at a time

  /** The named pairs of a property list whose string is listed. */
  function OldPairs(kind: PairKind, lab: string, items: seq<PropItem>, listed: set<string>): (r: set<Item>) {
    set x | x in items && x.Name? && x.name != "" && Join(lab, x.name) in listed :: Pair(kind, lab, x.name)
  }

  function KeptFor(lab: string, p: PropItem, labels: set<string>, listed: set<string>): (r: set<Item>) {
    if !p.Name? then {}
    else if p.name == "" then if lab in labels then {LabelIndex(lab)} else {}
    else if Join(lab, p.name) in listed then {Pair(PropertyIndex, lab, p.name)}
    else {}
  }

  function KeptsFor(lab: string, items: seq<PropItem>, labels: set<string>, listed: set<string>): (r: set<Item>) {
    OldPairs(PropertyIndex, lab, items, listed) + if Name("") in items && lab in labels then {LabelIndex(lab)} else {}
  }

  function KeptIndices(db: set<Item>, req: map<string, Props>): (r: set<Item>) {
    KeptLabels(db, req) + KeptPairs(db, WantedPairs(req, PropertyIndex), PropertyIndex)
  }

  lemma {:induction false} OldPairsNext(kind: PairKind, lab: string, items: seq<PropItem>, i: nat, listed: set<string>)
    requires i < |items|
    ensures OldPairs(kind, lab, items[..i + 1], listed) ==
            OldPairs(kind, lab, items[..i], listed) +
            if items[i].Name? && items[i].name != "" && Join(lab, items[i].name) in listed
            then {Pair(kind, lab, items[i].name)} else {}
  {
    assert items[..i + 1] == items[..i] + [items[i]];
  }

  lemma {:induction false} KeptsForNext(lab: string, items: seq<PropItem>, i: nat, labels: set<string>,
      listed: set<string>)
    requires i < |items|
    ensures KeptsFor(lab, items[..i + 1], labels, listed) ==
            KeptsFor(lab, items[..i], labels, listed) + KeptFor(lab, items[i], labels, listed)
  {
    OldPairsNext(PropertyIndex, lab, items, i, listed);
    assert items[..i + 1] == items[..i] + [items[i]];
  }

  lemma {:induction false} KeptPairsStep(db: set<Item>, done: map<string, Props>, lab: string, v: Props, kind: PairKind)
    requires lab !in done
    ensures KeptPairs(db, WantedPairs(done[lab := v], kind), kind) ==
            KeptPairs(db, WantedPairs(done, kind), kind) + OldPairs(kind, lab, Items(v), Listed(db, kind))
  {
    forall x
      ensures x in WantedPairs(done[lab := v], kind) <==> x in WantedPairs(done, kind) || AsksFor(kind, lab, v, x)
    {
      WantedOfLabel(done, lab, v, kind, x);
    }
  }

  lemma {:induction false} KeptIndicesStep(db: set<Item>, done: map<string, Props>, lab: string, v: Props,
      labels: set<string>)
    requires lab !in done && (forall l :: l in labels <==> LabelIndex(l) in db)
    ensures KeptIndices(db, done[lab := v]) ==
            KeptIndices(db, done) + KeptsFor(lab, Items(v), labels, Listed(db, PropertyIndex))
  {
    KeptPairsStep(db, done, lab, v, PropertyIndex);
    assert KeptLabels(db, done[lab := v]) ==
           KeptLabels(db, done) + if Name("") in Items(v) && lab in labels then {LabelIndex(lab)} else {};
  }

  /** What the creation loop has done once the labels of `done` are processed. */
  ghost predicate IndexProgress(db0: set<Item>, done: map<string, Props>, db: set<Item>, assertedLabels: set<string>,
      assertedPairs: set<string>)
  {
    && db == db0 + WantedLabels(done) + FreshPairs(db0, WantedPairs(done, PropertyIndex), PropertyIndex)
    && (forall l :: l in assertedLabels <==> LabelIndex(l) in AssertedLabels(db0, done))
    && assertedPairs == Keys(WantedPairs(done, PropertyIndex))
  }

  /** The additions and assertions of one label's list. */
  function Adds(lab: string, v: Props, listed: set<string>): (r: set<Item>) {
    if v == PropList([]) then {LabelIndex(lab)} else ItemsFor(lab, Items(v), listed)
  }

  function Asserts(lab: string, v: Props, db: set<Item>): (r: set<string>) {
    if v == PropList([]) then if LabelIndex(lab) in db then {} else {""} else AllNames(Items(v))
  }

  lemma {:induction false} IndexDbStep(db0: set<Item>, done: map<string, Props>, lab: string, v: Props)
    requires lab !in done
    ensures var listed, done' := Listed(db0, PropertyIndex), done[lab := v];
            db0 + WantedLabels(done) + FreshPairs(db0, WantedPairs(done, PropertyIndex), PropertyIndex)
            + Adds(lab, v, listed) ==
            db0 + WantedLabels(done') + FreshPairs(db0, WantedPairs(done', PropertyIndex), PropertyIndex)
  {
    PairsOfLabel(db0, done, lab, v, PropertyIndex);
    LabelsOfLabel(db0, done, lab, v);
  }

  lemma {:induction false} AssertedNames(lab: string, v: Props, db: set<Item>)
    ensures var asserted := Asserts(lab, v, db);
            (set p | p in asserted && p != "" :: Join(lab, p)) == (set p | p in Names(Items(v)) :: Join(lab, p))
  {
    var asserted := Asserts(lab, v, db);
    assert forall p :: p in asserted && p != "" <==> p in Names(Items(v));
  }

  lemma {:induction false} IndexProgressStep(db0: set<Item>, done: map<string, Props>, db: set<Item>,
      assertedLabels: set<string>, assertedPairs: set<string>, lab: string, v: Props)
    requires IndexProgress(db0, done, db, assertedLabels, assertedPairs) && lab !in done
    ensures var asserted := Asserts(lab, v, db);
            IndexProgress(db0, done[lab := v], db + Adds(lab, v, Listed(db0, PropertyIndex)),
                          if "" in asserted then assertedLabels + {lab} else assertedLabels,
                          assertedPairs + set p | p in asserted && p != "" :: Join(lab, p))
  {
    IndexDbStep(db0, done, lab, v);
    AssertedNames(lab, v, db);
    assert Keys(WantedPairs(done[lab := v], PropertyIndex)) ==
           Keys(WantedPairs(done, PropertyIndex)) + set p | p in Names(Items(v)) :: Join(lab, p) by {
      PairsOfLabel(db0, done, lab, v, PropertyIndex);
    }
    LabelsOfLabel(db0, done, lab, v);
    assert LabelIndex(lab) in db <==> LabelIndex(lab) in db0;
  }

  ghost predicate ExistenceProgress(db0: set<Item>, done: map<string, Props>, db: set<Item>, asserted: set<string>) {
    && db == db0 + FreshPairs(db0, WantedPairs(done, ExistenceConstraint), ExistenceConstraint)
    && asserted == Keys(WantedPairs(done, ExistenceConstraint))
  }

  lemma {:induction false} ExistenceProgressStep(db0: set<Item>, done: map<string, Props>, db: set<Item>,
      asserted: set<string>, lab: string, v: Props)
    requires ExistenceProgress(db0, done, db, asserted) && lab !in done
    ensures ExistenceProgress(db0, done[lab := v],
                              db + NewPairs(ExistenceConstraint, lab, Items(v), Listed(db0, ExistenceConstraint)),
                              asserted + set p | p in Names(Items(v)) :: Join(lab, p))
  {
    PairsOfLabel(db0, done, lab, v, ExistenceConstraint);
  }

  predicate InSets(x: Item, asserted: map<string, set<set<string>>>) {
    x.Unique? && x.lab in asserted && x.props in asserted[x.lab]
  }

  ghost predicate UniqueProgress(db0: set<Item>, req: map<string, Nested>, db: set<Item>,
      asserted: map<string, set<set<string>>>) {
    && (forall x :: x in db <==> x in db0 || InSets(x, asserted))
    && (forall l :: l in asserted ==> l in req && asserted[l] == SetsOf(NestedLists(req[l])))
  }

  lemma {:induction false} UniqueProgressStep(db0: set<Item>, req: map<string, Nested>, db: set<Item>,
      asserted: map<string, set<set<string>>>, lab: string)
    requires UniqueProgress(db0, req, db, asserted) && lab in req && lab !in asserted
    ensures UniqueProgress(db0, req, db + UniqueOf(lab, NestedLists(req[lab])),
            asserted[lab := SetsOf(NestedLists(req[lab]))])
  {
    UniqueAre(lab, NestedLists(req[lab]));
  }

  ghost predicate KeptSets(kept0: set<Item>, kept: set<Item>, existing: set<Item>,
      asserted: map<string, set<set<string>>>) {
    forall x :: x in kept <==> x in kept0 || (x in existing && InSets(x, asserted))
  }

  lemma {:induction false} KeptSetsStep(kept0: set<Item>, kept: set<Item>, existing: set<Item>,
      asserted: map<string, set<set<string>>>, lab: string, lists: seq<Props>)
    requires KeptSets(kept0, kept, existing, asserted) && lab !in asserted
    ensures KeptSets(kept0, kept + UniqueOf(lab, lists) * existing, existing, asserted[lab := SetsOf(lists)])
  {
    UniqueAre(lab, lists);
  }

  /** What the loop over one label's list has done after `items`. */
  ghost predicate LabelProgress(lab: string, items: seq<PropItem>, labels: set<string>, listed: set<string>,
      db0: set<Item>, kept0: set<Item>, db: set<Item>, kept: set<Item>, asserted: set<string>)
  {
    && db == db0 + ItemsFor(lab, items, listed)
    && kept == kept0 + KeptsFor(lab, items, labels, listed)
    && asserted == AllNames(items)
  }

  lemma {:induction false} LabelProgressStep(lab: string, items: seq<PropItem>, i: nat, labels: set<string>,
      listed: set<string>, db0: set<Item>, kept0: set<Item>, db: set<Item>, kept: set<Item>, asserted: set<string>)
    requires i < |items| && LabelProgress(lab, items[..i], labels, listed, db0, kept0, db, kept, asserted)
    ensures var p := items[i];
            LabelProgress(lab, items[..i + 1], labels, listed, db0, kept0,
                          db + ItemFor(lab, p, listed), kept + KeptFor(lab, p, labels, listed),
                          asserted + if p.Name? then {p.name} else {})
  {
    ItemsForNext(lab, items, i, listed);
    KeptsForNext(lab, items, i, labels, listed);
  }

  ghost predicate IndexState(db0: set<Item>, kept0: set<Item>, done: map<string, Props>, db: set<Item>, kept: set<Item>,
      assertedLabels: set<string>, assertedPairs: set<string>)
  {
    IndexProgress(db0, done, db, assertedLabels, assertedPairs) && kept == kept0 + KeptIndices(db0, done)
  }

  lemma {:induction false} IndexStateStep(db0: set<Item>, kept0: set<Item>, done: map<string, Props>, db: set<Item>,
      kept: set<Item>, assertedLabels: set<string>, assertedPairs: set<string>, lab: string, v: Props,
      labels: set<string>)
    requires IndexState(db0, kept0, done, db, kept, assertedLabels, assertedPairs) && lab !in done
    requires forall l :: l in labels <==> LabelIndex(l) in db0
    ensures var asserted, listed := Asserts(lab, v, db), Listed(db0, PropertyIndex);
            IndexState(db0, kept0, done[lab := v],
                       db + Adds(lab, v, listed), kept + KeptsFor(lab, Items(v), labels, listed),
                       if "" in asserted then assertedLabels + {lab} else assertedLabels,
                       assertedPairs + set p | p in asserted && p != "" :: Join(lab, p))
    ensures db0 <= db
  {
    IndexProgressStep(db0, done, db, assertedLabels, assertedPairs, lab, v);
    KeptIndicesStep(db0, done, lab, v, labels);
  }

  ghost predicate ExistenceState(db0: set<Item>, kept0: set<Item>, done: map<string, Props>, db: set<Item>,
      kept: set<Item>, asserted: set<string>) {
    && ExistenceProgress(db0, done, db, asserted)
    && kept == kept0 + KeptPairs(db0, WantedPairs(done, ExistenceConstraint), ExistenceConstraint)
  }

  /** What the loop over one label's existence constraints has done after `items`. */
  ghost predicate ExistenceListProgress(lab: string, items: seq<PropItem>, listed: set<string>, db0: set<Item>,
      kept0: set<Item>, db: set<Item>, kept: set<Item>, asserted: set<string>)
  {
    && db == db0 + NewPairs(ExistenceConstraint, lab, items, listed) && asserted == Names(items)
    && kept == kept0 + OldPairs(ExistenceConstraint, lab, items, listed)
  }

  lemma {:induction false} ExistenceListStep(lab: string, items: seq<PropItem>, i: nat, listed: set<string>,
      db0: set<Item>, kept0: set<Item>, db: set<Item>, kept: set<Item>, asserted: set<string>)
    requires i < |items| && ExistenceListProgress(lab, items[..i], listed, db0, kept0, db, kept, asserted)
    ensures var p := items[i];
            if p.Name? && p.name != "" then
              var x, known := Pair(ExistenceConstraint, lab, p.name), Join(lab, p.name) in listed;
              ExistenceListProgress(lab, items[..i + 1], listed, db0, kept0, db + if known then {} else {x},
                                    kept + if known then {x} else {}, asserted + {p.name})
            else ExistenceListProgress(lab, items[..i + 1], listed, db0, kept0, db, kept, asserted)
  {
    NewPairsNext(ExistenceConstraint, lab, items, i, listed);
    OldPairsNext(ExistenceConstraint, lab, items, i, listed);
  }

  lemma {:induction false} ExistenceStateStep(db0: set<Item>, kept0: set<Item>, done: map<string, Props>, db: set<Item>,
      kept: set<Item>, asserted: set<string>, lab: string, v: Props)
    requires ExistenceState(db0, kept0, done, db, kept, asserted) && lab !in done
    ensures var listed := Listed(db0, ExistenceConstraint);
            ExistenceState(db0, kept0, done[lab := v],
                           db + NewPairs(ExistenceConstraint, lab, Items(v), listed),
                           kept + OldPairs(ExistenceConstraint, lab, Items(v), listed),
                           asserted + set p | p in Names(Items(v)) :: Join(lab, p))
    ensures db0 <= db
  {
    ExistenceProgressStep(db0, done, db, asserted, lab, v);
    KeptPairsStep(db0, done, lab, v, ExistenceConstraint);
  }

  /** What the loop over one label's unique constraints has done after `lists`. */
  ghost predicate UniqueListProgress(lab: string, lists: seq<Props>, existing: set<Item>, db0: set<Item>,
      kept0: set<Item>, db: set<Item>, kept: set<Item>, asserted: set<set<string>>)
  {
    && db == db0 + UniqueOf(lab, lists) && asserted == SetsOf(lists)
    && kept == kept0 + UniqueOf(lab, lists) * existing
  }

  lemma {:induction false} UniqueListStep(lab: string, lists: seq<Props>, i: nat, existing: set<Item>, db0: set<Item>,
      kept0: set<Item>, db: set<Item>, kept: set<Item>, asserted: set<set<string>>)
    requires i < |lists| && UniqueListProgress(lab, lists[..i], existing, db0, kept0, db, kept, asserted)
    ensures var x := Unique(lab, PropSet(lists[i]));
            if ValidProps(lists[i])
            then UniqueListProgress(lab, lists[..i + 1], existing, db0, kept0, db + {x},
                                    if x in existing then kept + {x} else kept, asserted + {x.props})
            else UniqueListProgress(lab, lists[..i + 1], existing, db0, kept0, db, kept, asserted)
  {
    assert lists[..i + 1] == lists[..i] + [lists[i]];
  }

  class Session {
    var db: set<Item>
    var log: seq<Record>
    ghost var kept: set<Item>

    /** The database's creation calls: true exactly if the item was not there. */
    method Create(x: Item) returns (ok: bool)
      modifies this`db
      ensures ok <==> x !in old(db)
      ensures db == old(db) + {x}
    {
      ok := x !in db;
      db := db + {x};
    }

    /** The database's drop calls: true exactly if the item was there. */
    method Drop(x: Item) returns (ok: bool)
      modifies this`db
      ensures ok <==> x in old(db)
      ensures db == old(db) - {x}
    {
      ok := x in db;
      db := db - {x};
    }

    /** Report an existing entry as kept, else create and report it. */
    method KeepOrCreate(x: Item, exists_: bool, ghost before: set<Item>)
      requires Faithful(before, log, db, kept) && (x in before ==> x in db)
      modifies this
      ensures Faithful(before, log, db, kept)
      ensures db == old(db) + if exists_ then {} else {x}
      ensures kept == old(kept) + if exists_ then {x} else {}
    {
      if exists_ {
        LogKept(before, log, db, kept, x);
        log, kept := log + [Record(Kept, x)], kept + {x};
      } else {
        ghost var db0 := db;
        var ok := Create(x);
        if ok {
          LogCreated(before, log, db0, kept, x);
          log := log + [Record(Created, x)];
        } else {
          assert db == db0;
        }
      }
    }

    method DropAndReport(x: Item, ghost before: set<Item>)
      requires Faithful(before, log, db, kept) && (x in db ==> x in before)
      modifies this
      ensures Faithful(before, log, db, kept) && db == old(db) - {x} && kept == old(kept)
    {
      ghost var db0 := db;
      var ok := Drop(x);
      if ok {
        LogDropped(before, log, db0, kept, x);
        log := log + [Record(Dropped, x)];
      } else {
        assert db == db0;
      }
    }

    /** Drop a set of entries, in any order. */
    method DropAll(xs: set<Item>, ghost before: set<Item>)
      requires Faithful(before, log, db, kept) && forall x :: x in xs && x in db ==> x in before
      modifies this
      ensures Faithful(before, log, db, kept) && db == old(db) - xs && kept == old(kept)
    {
      var todo := xs;
      while todo != {}
        invariant todo <= xs && Faithful(before, log, db, kept) && db == old(db) - (xs - todo) && kept == old(kept)
        decreases |todo|
      {
        var x :| x in todo;
        DropAndReport(x, before);
        todo := todo - {x};
      }
    }

    // ---- indices

    method CreateForProperty(lab: string, p: PropItem, labels: set<string>, listed: set<string>,
        ghost before: set<Item>, ghost db0: set<Item>)
      requires Faithful(before, log, db, kept) && db0 <= db
      requires Same(before, db0, IsLabel) && Same(before, db0, IsPropertyIndex)
      requires forall l :: l in labels <==> LabelIndex(l) in db0
      modifies this
      ensures Faithful(before, log, db, kept) && db == old(db) + ItemFor(lab, p, listed)
      ensures kept == old(kept) + KeptFor(lab, p, labels, listed)
    {
      if p.Name? {
        if p.name == "" {
          KeepOrCreate(LabelIndex(lab), lab in labels, before);
        } else {
          KeepOrCreate(Pair(PropertyIndex, lab, p.name), Join(lab, p.name) in listed, before);
        }
      }
    }

    method CreateForEmptyList(lab: string, ghost before: set<Item>) returns (created: bool)
      requires Faithful(before, log, db, kept) && (LabelIndex(lab) in before ==> LabelIndex(lab) in db)
      modifies this
      ensures Faithful(before, log, db, kept) && db == old(db) + {LabelIndex(lab)} && kept == old(kept)
      ensures created <==> LabelIndex(lab) !in old(db)
    {
      ghost var db1 := db;
      created := Create(LabelIndex(lab));
      if created {
        LogCreated(before, log, db1, kept, LabelIndex(lab));
        log := log + [Record(Created, LabelIndex(lab))];
      } else {
        assert db == db1;
      }
    }

    /** `CreateIndicesForLabel`: the asserted properties, "" for the label index.
        An empty list asserts the index only if it could be created. */
    method CreateIndicesForLabel(lab: string, v: Props, labels: set<string>, listed: set<string>,
        ghost before: set<Item>, ghost db0: set<Item>)
      returns (asserted: set<string>)
      requires Faithful(before, log, db, kept) && db0 <= db
      requires Same(before, db0, IsLabel) && Same(before, db0, IsPropertyIndex)
      requires forall l :: l in labels <==> LabelIndex(l) in db0
      modifies this
      ensures Faithful(before, log, db, kept)
      ensures db == old(db) + Adds(lab, v, listed) && asserted == Asserts(lab, v, old(db))
      ensures kept == old(kept) + KeptsFor(lab, Items(v), labels, listed)
    {
      asserted := {};
      if !v.PropList? { return; }
      if v.items == [] {
        var created := CreateForEmptyList(lab, before);
        if created { asserted := {""}; }
        return;
      }
      for i := 0 to |v.items|
        invariant Faithful(before, log, db, kept) && db0 <= db
        invariant LabelProgress(lab, v.items[..i], labels, listed, old(db), old(kept), db, kept, asserted)
      {
        LabelProgressStep(lab, v.items, i, labels, listed, old(db), old(kept), db, kept, asserted);
        CreateForProperty(lab, v.items[i], labels, listed, before, db0);
        if v.items[i].Name? { asserted := asserted + {v.items[i].name}; }
      }
      assert v.items[..|v.items|] == v.items;
    }

    /** The creation loop of `ProcessIndices` over a request in any order. */
    method CreateIndices(req: map<string, Props>, labels: set<string>, listed: set<string>, ghost before: set<Item>)
      returns (assertedLabels: set<string>, assertedPairs: set<string>)
      requires Faithful(before, log, db, kept)
      requires Same(before, db, IsLabel) && Same(before, db, IsPropertyIndex)
      requires (forall l :: l in labels <==> LabelIndex(l) in db) && listed == Listed(db, PropertyIndex)
      modifies this
      ensures Faithful(before, log, db, kept)
      ensures IndexState(old(db), old(kept), req, db, kept, assertedLabels, assertedPairs)
    {
      ghost var db0 := db;
      assertedLabels, assertedPairs := {}, {};
      var todo, done := req.Keys, map[];
      while todo != {}
        invariant todo <= req.Keys && done == Restrict(req, req.Keys - todo)
        invariant Faithful(before, log, db, kept)
        invariant IndexState(db0, old(kept), done, db, kept, assertedLabels, assertedPairs)
        decreases |todo|
      {
        var lab :| lab in todo;
        RestrictNext(req, todo, lab);
        IndexStateStep(db0, old(kept), done, db, kept, assertedLabels, assertedPairs, lab, req[lab], labels);
        var asserted := CreateIndicesForLabel(lab, req[lab], labels, listed, before, db0);
        if "" in asserted { assertedLabels := assertedLabels + {lab}; }
        assertedPairs := assertedPairs + set p | p in asserted && p != "" :: Join(lab, p);
        todo, done := todo - {lab}, done[lab := req[lab]];
      }
      assert done == req;
    }

    method ProcessIndices(req: map<string, Props>, drop: bool, ghost before: set<Item>)
      requires Faithful(before, log, db, kept)
      requires Same(before, db, IsLabel) && Same(before, db, IsPropertyIndex)
      modifies this
      ensures Faithful(before, log, db, kept) && db == AfterIndices(old(db), req, drop)
      ensures kept == old(kept) + KeptIndices(old(db), req)
    {
      ghost var db0, wanted := db, WantedPairs(req, PropertyIndex);
      var labels := set x | x in db && x.LabelIndex? :: x.lab;
      var listed := Listed(db, PropertyIndex);
      assert forall l :: l in labels <==> LabelIndex(l) in db by { LabelNames(db); }
      var assertedLabels, assertedPairs := CreateIndices(req, labels, listed, before);
      if !drop { return; }
      var oldLabels := set l | l in labels - assertedLabels :: LabelIndex(l);
      assert oldLabels == StaleLabels(db0, req) by { LabelsToDrop(db0, req, labels, assertedLabels); }
      DropAll(oldLabels, before);
      var oldPairs := set k | k in listed - assertedPairs :: Pair(PropertyIndex, Split(k).0, Split(k).1);
      assert oldPairs == StalePairs(db0, wanted, PropertyIndex);
      forall x | x in oldPairs && x in db ensures x in before {
        StaleAreListed(db0, wanted, PropertyIndex, x);
        StaleWasThere(db0, wanted, PropertyIndex, x);
      }
      DropAll(oldPairs, before);
    }

    // ---- existence constraints

    /** `CreateExistenceConstraintsForLabel`. */
    method CreateExistenceForLabel(lab: string, v: Props, listed: set<string>, ghost before: set<Item>,
        ghost db0: set<Item>)
      returns (asserted: set<string>)
      requires Faithful(before, log, db, kept) && db0 <= db && Same(before, db0, IsExistence)
      modifies this
      ensures Faithful(before, log, db, kept)
      ensures db == old(db) + NewPairs(ExistenceConstraint, lab, Items(v), listed) && asserted == Names(Items(v))
      ensures kept == old(kept) + OldPairs(ExistenceConstraint, lab, Items(v), listed)
    {
      asserted := {};
      if !v.PropList? { return; }
      for i := 0 to |v.items|
        invariant Faithful(before, log, db, kept) && db0 <= db
        invariant ExistenceListProgress(lab, v.items[..i], listed, old(db), old(kept), db, kept, asserted)
      {
        var p := v.items[i];
        ExistenceListStep(lab, v.items, i, listed, old(db), old(kept), db, kept, asserted);
        if p.Name? && p.name != "" {
          asserted := asserted + {p.name};
          KeepOrCreate(Pair(ExistenceConstraint, lab, p.name), Join(lab, p.name) in listed, before);
        }
      }
      assert v.items[..|v.items|] == v.items;
    }

    method CreateExistence(req: map<string, Props>, listed: set<string>,
        ghost before: set<Item>) returns (asserted: set<string>)
      requires Faithful(before, log, db, kept) && Same(before, db, IsExistence) &&
               listed == Listed(db, ExistenceConstraint)
      modifies this
      ensures Faithful(before, log, db, kept)
      ensures ExistenceState(old(db), old(kept), req, db, kept, asserted)
    {
      ghost var db0 := db;
      asserted := {};
      var todo, done := req.Keys, map[];
      while todo != {}
        invariant todo <= req.Keys && done == Restrict(req, req.Keys - todo)
        invariant Faithful(before, log, db, kept)
        invariant ExistenceState(db0, old(kept), done, db, kept, asserted)
        decreases |todo|
      {
        var lab :| lab in todo;
        RestrictNext(req, todo, lab);
        ExistenceStateStep(db0, old(kept), done, db, kept, asserted, lab, req[lab]);
        var names := CreateExistenceForLabel(lab, req[lab], listed, before, db0);
        asserted := asserted + set p | p in names :: Join(lab, p);
        todo, done := todo - {lab}, done[lab := req[lab]];
      }
      assert done == req;
    }

    method ProcessExistence(req: map<string, Props>, drop: bool, ghost before: set<Item>)
      requires Faithful(before, log, db, kept) && Same(before, db, IsExistence)
      modifies this
      ensures Faithful(before, log, db, kept) && db == AfterExistence(old(db), req, drop)
      ensures kept == old(kept) + KeptPairs(old(db), WantedPairs(req, ExistenceConstraint), ExistenceConstraint)
    {
      ghost var db0, wanted := db, WantedPairs(req, ExistenceConstraint);
      var listed := Listed(db, ExistenceConstraint);
      var asserted := CreateExistence(req, listed, before);
      if !drop { return; }
      var oldPairs := set k | k in listed - asserted :: Pair(ExistenceConstraint, Split(k).0, Split(k).1);
      assert oldPairs == StalePairs(db0, wanted, ExistenceConstraint);
      forall x | x in oldPairs && x in db ensures x in before {
        StaleAreListed(db0, wanted, ExistenceConstraint, x);
        StaleWasThere(db0, wanted, ExistenceConstraint, x);
      }
      DropAll(oldPairs, before);
    }

    // ---- unique constraints

    /** `CreateUniqueConstraintsForLabel`: lists that are empty, or hold anything
        but non-empty strings, are passed over. */
    method CreateUniqueForLabel(lab: string, v: Nested, existing: set<Item>, ghost before: set<Item>)
      returns (asserted: set<set<string>>)
      requires Faithful(before, log, db, kept) && existing <= db && Same(before, existing, IsUnique)
      modifies this
      ensures Faithful(before, log, db, kept)
      ensures db == old(db) + UniqueOf(lab, NestedLists(v)) && asserted == SetsOf(NestedLists(v))
      ensures kept == old(kept) + UniqueOf(lab, NestedLists(v)) * existing
    {
      asserted := {};
      if !v.NestedList? { return; }
      for i := 0 to |v.lists|
        invariant Faithful(before, log, db, kept) && existing <= db
        invariant UniqueListProgress(lab, v.lists[..i], existing, old(db), old(kept), db, kept, asserted)
      {
        UniqueListStep(lab, v.lists, i, existing, old(db), old(kept), db, kept, asserted);
        if ValidProps(v.lists[i]) {
          var x := Unique(lab, PropSet(v.lists[i]));
          KeepOrCreate(x, x in existing, before);
          asserted := asserted + {x.props};
        }
      }
      assert v.lists[..|v.lists|] == v.lists;
    }

    method CreateUnique(req: map<string, Nested>, existing: set<Item>, ghost before: set<Item>)
      returns (asserted: map<string, set<set<string>>>)
      requires Faithful(before, log, db, kept) && existing <= db && Same(before, existing, IsUnique)
      modifies this
      ensures Faithful(before, log, db, kept) && asserted.Keys == req.Keys
      ensures UniqueProgress(old(db), req, db, asserted)
      ensures KeptSets(old(kept), kept, existing, asserted)
    {
      ghost var db0 := db;
      asserted := map[];
      var todo := req.Keys;
      while todo != {}
        invariant todo <= req.Keys && asserted.Keys == req.Keys - todo
        invariant Faithful(before, log, db, kept)
        invariant UniqueProgress(db0, req, db, asserted)
        invariant KeptSets(old(kept), kept, existing, asserted)
        decreases |todo|
      {
        var lab :| lab in todo;
        UniqueProgressStep(db0, req, db, asserted, lab);
        KeptSetsStep(old(kept), kept, existing, asserted, lab, NestedLists(req[lab]));
        var sets := CreateUniqueForLabel(lab, req[lab], existing, before);
        asserted := asserted[lab := sets];
        todo := todo - {lab};
      }
    }

    method ProcessUnique(req: map<string, Nested>, drop: bool, ghost before: set<Item>)
      requires Faithful(before, log, db, kept) && Same(before, db, IsUnique)
      modifies this
      ensures Faithful(before, log, db, kept) && db == AfterUnique(old(db), req, drop)
      ensures kept == old(kept) + KeptUnique(old(db), req)
    {
      var existing := set x | x in db && x.Unique?;
      ghost var db0 := db;
      var asserted := CreateUnique(req, existing, before);
      WantedUniqueAre(req, asserted);
      assert db == db0 + WantedUnique(req);
      assert kept == old(kept) + KeptUnique(db0, req);
      if !drop { return; }
      var stale := set x | x in existing && (x.lab !in asserted || x.props !in asserted[x.lab]);
      DropAll(stale, before);
      assert stale == set x | x in db0 && x.Unique? && x !in WantedUnique(req);
    }

    // ---- the whole procedure

    /** `Schema::Assert`: the records are a faithful edit script in every case, and
        all of them say "Kept" if the database already was as it ends up. */
    method Assert(indices: map<string, Props>, unique: map<string, Nested>, existence: map<string, Props>, drop: bool)
      requires log == []
      modifies this
      ensures db == AfterAssert(old(db), indices, unique, existence, drop)
      ensures Faithful(old(db), log, db, KeptByAssert(old(db), indices, unique, existence))
      ensures db == old(db) ==> forall r :: r in log ==> r.action == Kept
      ensures drop && Settled(old(db), indices, unique, existence) && NoEmptyList(indices) ==>
                db == old(db) && forall r :: r in log ==> r.action == Kept
    {
      ghost var before := db;
      kept := {};
      LogStart(db);
      ProcessIndices(indices, drop, before);
      assert Same(before, db, IsExistence) && Same(before, db, IsUnique) by { IndicesOnly(before, indices, drop); }
      ghost var db1 := db;
      ListedAlike(before, db1, ExistenceConstraint, indices, drop);
      ProcessExistence(existence, drop, before);
      assert Same(before, db, IsUnique) by { ExistenceOnly(db1, existence, drop); }
      assert KeptUnique(db, unique) == KeptUnique(before, unique);
      ProcessUnique(unique, drop, before);
      assert kept == KeptByAssert(before, indices, unique, existence);
      if drop && Settled(before, indices, unique, existence) && NoEmptyList(indices) {
        SettledStays(before, indices, unique, existence);
      }
      if db == before { UnchangedMeansKept(db, log, kept); }
    }
  }

  // ---- what the phases rely on

  lemma {:induction false} LabelNames(db: set<Item>)
    ensures forall l :: l in (set x | x in db && x.LabelIndex? :: x.lab) <==> LabelIndex(l) in db
  {
    forall l | LabelIndex(l) in db ensures l in (set x | x in db && x.LabelIndex? :: x.lab) {
      assert LabelIndex(l).lab == l;
    }
  }

  lemma {:induction false} LabelsToDrop(db0: set<Item>, req: map<string, Props>, labels: set<string>,
      asserted: set<string>)
    requires forall l :: l in labels <==> LabelIndex(l) in db0
    requires forall l :: l in asserted <==> LabelIndex(l) in AssertedLabels(db0, req)
    ensures (set l | l in labels - asserted :: LabelIndex(l)) == StaleLabels(db0, req)
  {
    forall x | x in StaleLabels(db0, req) ensures x in (set l | l in labels - asserted :: LabelIndex(l)) {
      assert x == LabelIndex(x.lab);
    }
  }

  /** A stale pair that is still there was there from the start. */
  lemma {:induction false} StaleWasThere(db0: set<Item>, wanted: set<Item>, kind: PairKind, x: Item)
    requires x in StalePairs(db0, wanted, kind)
    ensures x !in FreshPairs(db0, wanted, kind)
  {
    StaleAreListed(db0, wanted, kind, x);
  }

  function UniqueOf(lab: string, lists: seq<Props>): (r: set<Item>) {
    set p | p in lists && ValidProps(p) :: Unique(lab, PropSet(p))
  }

  function SetsOf(lists: seq<Props>): (r: set<set<string>>) {
    set p | p in lists && ValidProps(p) :: PropSet(p)
  }

  lemma {:induction false} UniqueAre(lab: string, lists: seq<Props>)
    ensures forall x :: x in UniqueOf(lab, lists) <==> x.Unique? && x.lab == lab && x.props in SetsOf(lists)
  {}

  lemma {:induction false} WantedUniqueAre(req: map<string, Nested>, asserted: map<string, set<set<string>>>)
    requires asserted.Keys == req.Keys && forall l :: l in asserted ==> asserted[l] == SetsOf(NestedLists(req[l]))
    ensures forall x :: x in WantedUnique(req) <==> InSets(x, asserted)
  {
    forall x | InSets(x, asserted) ensures x in WantedUnique(req) {
      var p :| p in NestedLists(req[x.lab]) && ValidProps(p) && x.props == PropSet(p);
      assert x == Unique(x.lab, PropSet(p));
    }
  }

  lemma {:induction false} IndicesOnly(db: set<Item>, req: map<string, Props>, drop: bool)
    ensures Same(db, AfterIndices(db, req, drop), IsExistence) && Same(db, AfterIndices(db, req, drop), IsUnique)
  {}

  lemma {:induction false} ExistenceOnly(db: set<Item>, req: map<string, Props>, drop: bool)
    ensures Same(db, AfterExistence(db, req, drop), IsUnique)
  {}

  ghost function Restrict(req: map<string, Props>, ls: set<string>): (r: map<string, Props>) {
    map l | l in req && l in ls :: req[l]
  }

  lemma {:induction false} RestrictNext(req: map<string, Props>, todo: set<string>, lab: string)
    requires todo <= req.Keys && lab in todo
    ensures lab !in Restrict(req, req.Keys - todo)
    ensures Restrict(req, req.Keys - (todo - {lab})) == Restrict(req, req.Keys - todo)[lab := req[lab]]
  {}
}
