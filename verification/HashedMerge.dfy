/** The merges as the source runs them: a bucket table indexes the existing
    list, new items are probed for and merged or appended, and the children of
    merged items are merged recursively.  Each method is proved to compute the
    linear-search merge of module `Merge`. */
module HashedMerge {
  import opened Options
  import opened Probing
  import opened BucketTable
  import opened TreeValues
  import opened Merge

  /** Identities to the first position holding each of them. */
  function FirstIndex(xs: seq<Value>): (m: map<Key, nat>)
    ensures m.Keys == Keys(xs)
    ensures forall key :: key in m ==> m[key] < |xs|
  {
    if xs == [] then map[]
    else
      var n := |xs| - 1;
      var m := FirstIndex(xs[..n]);
      if Identity(xs[n]).Some? && Identity(xs[n]).value !in m then m[Identity(xs[n]).value := n] else m
  }

  lemma {:induction false} FindFirstInPrefix(xs: seq<Value>, key: Key, n: nat)
    requires n <= |xs|
    ensures var i := FindFirst(xs[..n], key);
            if i < n then FindFirst(xs, key) == i else FindFirst(xs, key) >= n
  {
    var i := FindFirst(xs[..n], key);
    assert forall k :: 0 <= k < n ==> xs[..n][k] == xs[k];
    if i < n { assert Identity(xs[i]) == Some(key); }
  }

  lemma {:induction false} FirstIndexFinds(xs: seq<Value>, key: Key)
    requires key in Keys(xs)
    ensures FirstIndex(xs)[key] == FindFirst(xs, key)
  {
    var n := |xs| - 1;
    FindFirstInPrefix(xs, key, n);
    InKeys(xs, key);
    InKeys(xs[..n], key);
    if key in Keys(xs[..n]) { FirstIndexFinds(xs[..n], key); }
  }

  lemma {:induction false} FirstIndexByIdentity(xs: seq<Value>, ys: seq<Value>)
    requires |xs| == |ys| && forall i :: 0 <= i < |xs| ==> Identity(xs[i]) == Identity(ys[i])
    ensures FirstIndex(xs) == FirstIndex(ys)
  {
    if xs != [] { FirstIndexByIdentity(xs[..|xs| - 1], ys[..|ys| - 1]); }
  }

  /** The table after a merge step still indexes the list. */
  lemma {:induction false} FirstIndexAfterMerge(xs: seq<Value>, y: Value)
    ensures FirstIndex(MergeItem(xs, y)) ==
            if Target(xs, y) == |xs| && Identity(y).Some? then FirstIndex(xs)[Identity(y).value := |xs|]
            else FirstIndex(xs)
  {
    MergeItemKeepsIdentities(xs, y);
    if Target(xs, y) < |xs| {
      FirstIndexByIdentity(xs, MergeItem(xs, y));
    } else {
      assert MergeItem(xs, y)[..|xs|] == xs;
      if Identity(y).Some? { InKeys(xs, Identity(y).value); }
    }
  }

  /** Probe a table that has room for the key, and fill the slot if it is free:
      the position stored for the key, which is `at` if there was none yet. */
  method FindOrFill(tbl: array<Bucket>, key: Key, at: nat, ghost m: map<Key, nat>) returns (j: nat)
    requires Represents(tbl[..], Hash, m)
    requires key in m || |m| < tbl.Length
    modifies tbl
    ensures j == if key in m then m[key] else at
    ensures Represents(tbl[..], Hash, if key in m then m else m[key := at])
  {
    RoomIff(tbl[..], Hash, m, key);
    ghost var p :| 0 <= p < |tbl[..]| && Stops(tbl[..][p], key);
    assert Stops(tbl[p], key);
    var pos := Probe(tbl, key, Hash(key));
    Lookup(tbl[..], Hash, m, key);
    if tbl[pos].used {
      j := tbl[pos].at;
    } else {
      Insert(tbl[..], Hash, m, key, at);
      tbl[pos] := Bucket(true, key, at);
      j := at;
    }
  }

  lemma {:induction false} IndexRoom(xs: seq<Value>, i: nat)
    requires i < |xs|
    ensures |FirstIndex(xs[..i])| == |Keys(xs[..i])|
    ensures FirstIndex(xs[..i + 1]) ==
            if Identity(xs[i]).Some? && Identity(xs[i]).value !in FirstIndex(xs[..i])
            then FirstIndex(xs[..i])[Identity(xs[i]).value := i] else FirstIndex(xs[..i])
    ensures Identity(xs[i]).Some? ==>
              Identity(xs[i]).value in FirstIndex(xs[..i]) || |FirstIndex(xs[..i])| < |Keys(xs)|
  {
    assert xs[..i + 1][..i] == xs[..i];
    KeysPrefix(xs, i + 1);
    assert |FirstIndex(xs[..i])| == |FirstIndex(xs[..i]).Keys|;
  }

  /** `index_existing_children`: a later item with an identity already indexed
      is ignored. */
  method IndexExisting(xs: seq<Value>, tbl: array<Bucket>)
    requires Represents(tbl[..], Hash, map[])
    requires |Keys(xs)| <= tbl.Length
    modifies tbl
    ensures Represents(tbl[..], Hash, FirstIndex(xs))
  {
    for i := 0 to |xs|
      invariant Represents(tbl[..], Hash, FirstIndex(xs[..i]))
    {
      var id := ExtractIdentity(xs[i]);
      IndexRoom(xs, i);
      if id.Some? {
        var _ := FindOrFill(tbl, id.value, i, FirstIndex(xs[..i]));
      }
    }
    assert xs[..|xs|] == xs;
  }

  /** Merging the next item leaves no more identities to place than before. */
  lemma {:induction false} RoomKept(xs: seq<Value>, ys: seq<Value>, i: nat)
    requires i < |ys|
    ensures Keys(xs) + Keys(ys[i..]) == Keys(MergeItem(xs, ys[i])) + Keys(ys[i + 1..])
    ensures Identity(ys[i]).Some? ==> Identity(ys[i]).value in Keys(xs) || |Keys(xs)| < |Keys(xs) + Keys(ys[i..])|
  {
    var rest := ys[i..];
    KeysHead(rest);
    MergeItemKeys(xs, ys[i]);
    assert rest[1..] == ys[i + 1..];
    if Identity(ys[i]).Some? && Identity(ys[i]).value !in Keys(xs) {
      SubsetSize(Keys(xs) + {Identity(ys[i]).value}, Keys(xs) + Keys(rest));
    }
  }

  /** The position the table holds for a new item's identity is where the
      linear search puts it. */
  lemma {:induction false} TargetIndexed(xs: seq<Value>, y: Value)
    requires Identity(y).Some?
    ensures Target(xs, y) < |xs| <==> Identity(y).value in FirstIndex(xs)
    ensures Target(xs, y) < |xs| ==> FirstIndex(xs)[Identity(y).value] == Target(xs, y)
  {
    InKeys(xs, Identity(y).value);
    if Identity(y).value in Keys(xs) { FirstIndexFinds(xs, Identity(y).value); }
  }

  /** Probe for a new item: the position of the existing map to merge it into,
      or the end of the list, in which case the slot is filled for it. */
  method Locate(xs: seq<Value>, y: Value, tbl: array<Bucket>) returns (j: nat)
    requires Represents(tbl[..], Hash, FirstIndex(xs))
    requires Identity(y).Some? ==> Identity(y).value in Keys(xs) || |Keys(xs)| < tbl.Length
    modifies tbl
    ensures j == Target(xs, y)
    ensures Represents(tbl[..], Hash, FirstIndex(MergeItem(xs, y)))
  {
    FirstIndexAfterMerge(xs, y);
    var id := ExtractIdentity(y);
    if id.None? { return |xs|; }
    TargetIndexed(xs, y);
    ghost var m := FirstIndex(xs);
    assert |m| == |m.Keys|;
    j := FindOrFill(tbl, id.value, |xs|, m);
  }

  /** Merge or append one new item, keeping the table an index of the list. */
  method MergeOne(xs: seq<Value>, y: Value, tbl: array<Bucket>) returns (r: seq<Value>)
    requires Represents(tbl[..], Hash, FirstIndex(xs))
    requires Identity(y).Some? ==> Identity(y).value in Keys(xs) || |Keys(xs)| < tbl.Length
    requires Target(xs, y) < |xs| ==> FitsTrees(xs[Target(xs, y)], y)
    modifies tbl
    ensures r == MergeItem(xs, y)
    ensures Represents(tbl[..], Hash, FirstIndex(r))
    decreases y, 6
  {
    var j := Locate(xs, y, tbl);
    if j < |xs| {
      var merged := MergeTreesHashed(xs[j], y);
      r := xs[j := merged];
    } else {
      r := xs + [y];
    }
  }

  /** Everything still to come fits a table of `cap` slots. */
  predicate Ready(xs: seq<Value>, ys: seq<Value>, cap: nat) {
    |Keys(xs) + Keys(ys)| <= cap && FitsItems(xs, ys)
  }

  lemma {:induction false} NextItem(xs: seq<Value>, ys: seq<Value>, i: nat, cap: nat)
    requires i < |ys| && Ready(xs, ys[i..], cap)
    ensures MergeLists(xs, ys[i..]) == MergeLists(MergeItem(xs, ys[i]), ys[i + 1..])
    ensures Identity(ys[i]).Some? ==> Identity(ys[i]).value in Keys(xs) || |Keys(xs)| < cap
    ensures Target(xs, ys[i]) < |xs| ==> FitsTrees(xs[Target(xs, ys[i])], ys[i])
    ensures Ready(MergeItem(xs, ys[i]), ys[i + 1..], cap)
  {
    var rest := ys[i..];
    assert rest[0] == ys[i] && rest[1..] == ys[i + 1..];
    RoomKept(xs, ys, i);
  }

  method NewIndex(xs: seq<Value>, cap: nat) returns (tbl: array<Bucket>)
    requires IsPow2(cap) && |Keys(xs)| <= cap
    ensures fresh(tbl) && tbl.Length == cap && Represents(tbl[..], Hash, FirstIndex(xs))
  {
    tbl := new Bucket[cap](_ => EMPTY);
    EmptyTable(tbl[..], Hash);
    IndexExisting(xs, tbl);
  }

  /** The loop both list merges share: index the existing list in a fresh table
      of `cap` slots, then take the new items in order. */
  method MergeThroughTable(xs: seq<Value>, ys: seq<Value>, cap: nat) returns (r: seq<Value>)
    requires IsPow2(cap) && Ready(xs, ys, cap)
    ensures r == MergeLists(xs, ys)
    decreases ys, 1
  {
    SubsetSize(Keys(xs), Keys(xs) + Keys(ys));
    var tbl := NewIndex(xs, cap);
    r := xs;
    assert ys[0..] == ys;
    for i := 0 to |ys|
      invariant Represents(tbl[..], Hash, FirstIndex(r))
      invariant Ready(r, ys[i..], cap)
      invariant MergeLists(r, ys[i..]) == MergeLists(xs, ys)
    {
      NextItem(r, ys, i, cap);
      r := MergeOne(r, ys[i], tbl);
    }
    assert ys[|ys|..] == [];
  }

  /** `merge_list_into_list_small`: 64 slots. */
  method MergeListsSmall(xs: seq<Value>, ys: seq<Value>) returns (r: seq<Value>)
    requires Ready(xs, ys, SMALL_MERGE_THRESHOLD)
    ensures r == MergeLists(xs, ys)
    decreases ys, 2
  {
    if ys == [] { return xs; }
    assert Pow2(6) == 64;
    r := MergeThroughTable(xs, ys, SMALL_MERGE_THRESHOLD);
  }

  /** `merge_list_into_list_hashed`: 64 slots for fewer than 64 existing items,
      else the next power of two that is at least twice their number. */
  method MergeListsHashed(xs: seq<Value>, ys: seq<Value>) returns (r: seq<Value>)
    requires FitsLists(xs, ys)
    ensures r == MergeLists(xs, ys)
    decreases ys, 3
  {
    if ys == [] { return xs; }
    if |xs| < SMALL_MERGE_THRESHOLD {
      r := MergeListsSmall(xs, ys);
      return;
    }
    var cap := HASH_TABLE_MIN_CAPACITY;
    assert Pow2(3) == 8;
    while cap < 2 * |xs|
      invariant cap > 0 && IsPow2(cap)
      invariant GrowCapacity(cap, 2 * |xs|) == Capacity(|xs|)
      decreases 2 * |xs| - cap
    {
      ghost var n: nat :| cap == Pow2(n);
      assert 2 * cap == Pow2(n + 1);
      cap := 2 * cap;
    }
    r := MergeThroughTable(xs, ys, cap);
  }

  // ---- a list merge that does not end

  /** The probe for the `i`-th new item never stops, in a table that indexes the
      list merged so far. */
  ghost predicate Hangs(xs: seq<Value>, ys: seq<Value>, s: seq<Bucket>, i: nat) {
    i < |ys| && Identity(ys[i]).Some? && Represents(s, Hash, FirstIndex(MergeLists(xs, ys[..i]))) &&
    var key := Identity(ys[i]).value;
    forall k: nat :: !Stops(s[Moves(Hash(key), |s|, k).0], key)
  }

  /** The probe never stops exactly when every slot is taken by another identity. */
  lemma {:induction false} HangsIffStuck(xs: seq<Value>, ys: seq<Value>, s: seq<Bucket>, i: nat)
    requires i < |ys| && Represents(s, Hash, FirstIndex(MergeLists(xs, ys[..i])))
    ensures Hangs(xs, ys, s, i) <==> StuckAt(xs, ys, |s|, i)
  {
    var m := FirstIndex(MergeLists(xs, ys[..i]));
    assert |m| == |m.Keys|;
    if Identity(ys[i]).Some? {
      var key := Identity(ys[i]).value;
      RoomIff(s, Hash, m, key);
      ProbeReturnsIff(s, key, Hash(key));
    }
  }

  /** Any index that fits is held by some table. */
  lemma {:induction false} TableFor(m: map<Key, nat>, cap: nat) returns (s: seq<Bucket>)
    requires IsPow2(cap) && |m| <= cap
    ensures |s| == cap && Represents(s, Hash, m)
    decreases |m|
  {
    if m == map[] {
      s := seq(cap, _ => EMPTY);
      EmptyTable(s, Hash);
    } else {
      var key :| key in m;
      var rest := m - {key};
      assert m == rest[key := m[key]];
      var t := TableFor(rest, cap);
      RoomIff(t, Hash, rest, key);
      ProbeReturnsIff(t, key, Hash(key));
      Insert(t, Hash, rest, key, m[key]);
      s := t[Slot(Hash(key), |t|, Search(t, key, Hash(key), 0)) := Bucket(true, key, m[key])];
    }
  }

  /** A list merge through `cap` slots meets a probe that never stops exactly when
      there are more identities than slots. */
  lemma {:induction false} HangsIff(xs: seq<Value>, ys: seq<Value>, cap: nat)
    requires IsPow2(cap) && |Keys(xs)| <= cap
    ensures (exists s, i :: |s| == cap && Hangs(xs, ys, s, i)) <==> |Keys(xs) + Keys(ys)| > cap
  {
    if s, i :| |s| == cap && Hangs(xs, ys, s, i) {
      HangsIffStuck(xs, ys, s, i);
      StuckOverflows(xs, ys, cap, i);
    }
    if |Keys(xs) + Keys(ys)| > cap {
      assert ys[..|ys|] == ys;
      var i := FindStuck(xs, ys, cap, |ys|);
      var m := FirstIndex(MergeLists(xs, ys[..i]));
      assert |m| == |m.Keys|;
      var s := TableFor(m, cap);
      HangsIffStuck(xs, ys, s, i);
    }
  }

  /** So the precondition of the list merges says just that no probe runs forever:
      not here, in the table the merge uses, and not in the merges of children. */
  lemma {:induction false} FitsIff(xs: seq<Value>, ys: seq<Value>)
    ensures FitsLists(xs, ys) <==>
            !(exists s, i :: |s| == Capacity(|xs|) && Hangs(xs, ys, s, i)) && FitsItems(xs, ys)
  {
    KeysSize(xs);
    CapacityIs(|xs|);
    HangsIff(xs, ys, Capacity(|xs|));
  }

  /** The target's fields once the source keys in `done` are dealt with. */
  ghost function Merged(t: Value, s: Value, done: set<string>): (m: map<string, Value>)
    requires t.Obj? && s.Obj? && done <= s.fields.Keys
  {
    map k | k in t.fields.Keys + done && (k in t.fields || !Meta(k)) ::
      if k in done && SharedList(t, s, k) then Lst(MergeLists(t.fields[k].items, s.fields[k].items))
      else if k in t.fields then t.fields[k]
      else s.fields[k]
  }

  lemma {:induction false} MergedNext(t: Value, s: Value, done: set<string>, k: string)
    requires t.Obj? && s.Obj? && done <= s.fields.Keys && k in s.fields.Keys - done
    ensures k in Merged(t, s, done) <==> k in t.fields
    ensures k in t.fields ==> Merged(t, s, done)[k] == t.fields[k]
    ensures Merged(t, s, done + {k}) ==
            if SharedList(t, s, k) then Merged(t, s, done)[k := Lst(MergeLists(t.fields[k].items, s.fields[k].items))]
            else if k in t.fields || Meta(k) then Merged(t, s, done)
            else Merged(t, s, done)[k := s.fields[k]]
  {}

  lemma {:induction false} MergedStart(t: Value, s: Value)
    requires t.Obj? && s.Obj?
    ensures Merged(t, s, {}) == t.fields
  {}

  lemma {:induction false} MergedEnd(t: Value, s: Value)
    requires t.Obj? && s.Obj?
    ensures Merged(t, s, s.fields.Keys) == MergeTrees(t, s).fields
  {}

  /** One step of the loop of `merge_trees`. */
  method MergeKey(t: Value, s: Value, fields: map<string, Value>, k: string, ghost done: set<string>)
    returns (r: map<string, Value>)
    requires t.Obj? && s.Obj? && FitsTrees(t, s)
    requires done <= s.fields.Keys && k in s.fields.Keys - done
    requires fields == Merged(t, s, done)
    ensures r == Merged(t, s, done + {k})
    decreases s, 4
  {
    MergedNext(t, s, done, k);
    r := fields;
    if Meta(k) { return; }
    if k !in fields {
      r := fields[k := s.fields[k]];
    } else if fields[k].Lst? && s.fields[k].Lst? {
      assert SharedList(t, s, k);
      var merged := MergeListsHashed(fields[k].items, s.fields[k].items);
      r := fields[k := Lst(merged)];
    }
  }

  /** `merge_trees`, visiting the source's keys in any order. */
  method MergeTreesHashed(t: Value, s: Value) returns (r: Value)
    requires t.Obj? && s.Obj? && FitsTrees(t, s)
    ensures r == MergeTrees(t, s)
    decreases s, 5
  {
    var fields, todo := t.fields, s.fields.Keys;
    ghost var done := {};
    MergedStart(t, s);
    while todo != {}
      invariant todo <= s.fields.Keys && done == s.fields.Keys - todo
      invariant fields == Merged(t, s, done)
      decreases |todo|
    {
      var k :| k in todo;
      fields := MergeKey(t, s, fields, k, done);
      todo, done := todo - {k}, done + {k};
    }
    assert done == s.fields.Keys;
    MergedEnd(t, s);
    r := Obj(fields);
  }
}
