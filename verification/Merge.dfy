/** What merging trees means, written the simple way: `merge_trees` key by key,
    and the list merge as a linear search for each new item.  `Fits` says when
    the hashed implementation has a slot for every identity it meets. */
module Merge {
  import opened Options
  import opened Probing
  import opened BucketTable
  import opened TreeValues

  const SMALL_MERGE_THRESHOLD: nat := 64
  const HASH_TABLE_MIN_CAPACITY: nat := 8

  /** Keys `merge_trees` never touches. */
  predicate Meta(k: string) {
    k == "_id" || k == "_type"
  }

  /** Both maps hold a list under `k`, so the lists are merged. */
  predicate SharedList(t: Value, s: Value, k: string)
    requires t.Obj? && s.Obj?
  {
    !Meta(k) && k in t.fields && k in s.fields && t.fields[k].Lst? && s.fields[k].Lst?
  }

  /** `merge_trees`: keys only in the source move over, lists under the same key
      are merged, and everything else keeps the target's value. */
  function MergeTrees(t: Value, s: Value): (r: Value)
    requires t.Obj? && s.Obj?
    ensures r.Obj?
    decreases s, 1
  {
    Obj(map k | k in t.fields.Keys + s.fields.Keys && (k in t.fields || !Meta(k)) ::
          if SharedList(t, s, k) then Lst(MergeLists(t.fields[k].items, s.fields[k].items))
          else if k in t.fields then t.fields[k]
          else s.fields[k])
  }

  /** The first position holding an item with this identity; the length if none. */
  function FindFirst(xs: seq<Value>, key: Key): (j: nat)
    ensures j <= |xs|
    ensures j < |xs| ==> xs[j].Obj? && Identity(xs[j]) == Some(key)
    ensures forall i :: 0 <= i < j ==> Identity(xs[i]) != Some(key)
  {
    if xs == [] then 0
    else if Identity(xs[0]) == Some(key) then 0
    else 1 + FindFirst(xs[1..], key)
  }

  /** Where the new item goes: merged into the first item of its identity, else
      appended. */
  function Target(xs: seq<Value>, y: Value): (j: nat)
    ensures j <= |xs|
    ensures j < |xs| ==> xs[j].Obj? && y.Obj? && Identity(y).Some? && Identity(xs[j]) == Identity(y)
  {
    if Identity(y).Some? then FindFirst(xs, Identity(y).value) else |xs|
  }

  function MergeItem(xs: seq<Value>, y: Value): (r: seq<Value>)
    ensures |r| == if Target(xs, y) < |xs| then |xs| else |xs| + 1
    decreases y, 2
  {
    var j := Target(xs, y);
    if j < |xs| then xs[j := MergeTrees(xs[j], y)] else xs + [y]
  }

  function MergeLists(xs: seq<Value>, ys: seq<Value>): (r: seq<Value>)
    decreases ys, 0
  {
    if ys == [] then xs else MergeLists(MergeItem(xs, ys[0]), ys[1..])
  }

  // ---- identities never change

  lemma {:induction false} MergeTreesKeepsIdentity(t: Value, s: Value)
    requires t.Obj? && s.Obj?
    ensures Identity(MergeTrees(t, s)) == Identity(t)
  {
    var r := MergeTrees(t, s);
    assert forall k :: Meta(k) ==> (k in r.fields <==> k in t.fields) && (k in r.fields ==> r.fields[k] == t.fields[k]);
    assert Meta("_id") && Meta("_type");
  }

  lemma {:induction false} MergeItemKeepsIdentities(xs: seq<Value>, y: Value)
    ensures |xs| <= |MergeItem(xs, y)|
    ensures forall i :: 0 <= i < |xs| ==> Identity(MergeItem(xs, y)[i]) == Identity(xs[i])
  {
    var j := Target(xs, y);
    if j < |xs| { MergeTreesKeepsIdentity(xs[j], y); }
  }

  /** A list merge keeps the identity at every position of the existing list. */
  lemma {:induction false} MergeListsKeepsIdentities(xs: seq<Value>, ys: seq<Value>)
    ensures |xs| <= |MergeLists(xs, ys)|
    ensures forall i :: 0 <= i < |xs| ==> Identity(MergeLists(xs, ys)[i]) == Identity(xs[i])
    decreases |ys|
  {
    if ys != [] {
      MergeItemKeepsIdentities(xs, ys[0]);
      MergeListsKeepsIdentities(MergeItem(xs, ys[0]), ys[1..]);
    }
  }

  // ---- the set of identities in a list

  function Keys(xs: seq<Value>): (r: set<Key>) {
    if xs == [] then {}
    else Keys(xs[..|xs| - 1]) + KeyOf(xs[|xs| - 1])
  }

  function KeyOf(v: Value): (r: set<Key>) {
    if Identity(v).Some? then {Identity(v).value} else {}
  }

  ghost predicate SomeWith(xs: seq<Value>, key: Key) {
    exists i :: 0 <= i < |xs| && Identity(xs[i]) == Some(key)
  }

  lemma {:induction false} SomeWithNext(rest: seq<Value>, x: Value, key: Key)
    ensures SomeWith(rest + [x], key) <==> SomeWith(rest, key) || Identity(x) == Some(key)
  {
    var xs := rest + [x];
    assert forall i :: 0 <= i < |rest| ==> xs[i] == rest[i];
    assert xs[|rest|] == x;
  }

  lemma {:induction false} KeysNext(rest: seq<Value>, x: Value, key: Key)
    ensures key in Keys(rest + [x]) <==> key in Keys(rest) || Identity(x) == Some(key)
  {
    assert (rest + [x])[..|rest|] == rest;
  }

  lemma {:induction false} KeysHold(xs: seq<Value>, key: Key)
    ensures key in Keys(xs) <==> SomeWith(xs, key)
  {
    if xs != [] {
      var rest, x := xs[..|xs| - 1], xs[|xs| - 1];
      KeysHold(rest, key);
      SomeWithNext(rest, x, key);
      KeysNext(rest, x, key);
      assert xs == rest + [x];
    }
  }

  lemma {:induction false} InKeys(xs: seq<Value>, key: Key)
    ensures key in Keys(xs) <==> FindFirst(xs, key) < |xs|
  {
    KeysHold(xs, key);
  }

  lemma {:induction false} KeysSize(xs: seq<Value>)
    ensures |Keys(xs)| <= |xs|
  {
    if xs != [] { KeysSize(xs[..|xs| - 1]); }
  }

  lemma {:induction false} MergeItemKeys(xs: seq<Value>, y: Value)
    ensures Keys(MergeItem(xs, y)) == Keys(xs) + KeyOf(y)
  {
    var r := MergeItem(xs, y);
    MergeItemKeepsIdentities(xs, y);
    if Target(xs, y) == |xs| { assert r[..|xs|] == xs; }
    else {
      InKeys(xs, Identity(y).value);
      SameKeys(xs, r);
    }
  }

  lemma {:induction false} SameKeys(xs: seq<Value>, ys: seq<Value>)
    requires |xs| == |ys| && forall i :: 0 <= i < |xs| ==> Identity(xs[i]) == Identity(ys[i])
    ensures Keys(xs) == Keys(ys)
  {
    if xs != [] { SameKeys(xs[..|xs| - 1], ys[..|ys| - 1]); }
  }

  lemma {:induction false} KeysHead(xs: seq<Value>)
    requires xs != []
    ensures Keys(xs) == KeyOf(xs[0]) + Keys(xs[1..])
  {
    var n, rest := |xs| - 1, xs[1..];
    if n == 0 {
      assert rest == [] && xs[..n] == [];
    } else {
      KeysHead(xs[..n]);
      assert xs[..n][1..] == rest[..n - 1] && rest[n - 1] == xs[n];
      assert Keys(rest) == Keys(rest[..n - 1]) + KeyOf(xs[n]);
    }
  }

  /** Lists of plain values are concatenated, so merging one into itself
      changes it unless it is empty. */
  lemma {:induction false} PlainListsConcatenate(xs: seq<Value>, ys: seq<Value>)
    requires Keys(ys) == {}
    ensures MergeLists(xs, ys) == xs + ys
    ensures MergeLists(ys, ys) == ys <==> ys == []
  {
    forall i | 0 <= i < |ys| ensures Identity(ys[i]).None? {
      if Identity(ys[i]).Some? { KeysHold(ys, Identity(ys[i]).value); }
    }
    ConcatenateOnto(xs, ys);
    ConcatenateOnto(ys, ys);
    if ys != [] { assert |ys + ys| != |ys|; }
  }

  lemma {:induction false} ConcatenateOnto(xs: seq<Value>, ys: seq<Value>)
    requires forall i :: 0 <= i < |ys| ==> Identity(ys[i]).None?
    ensures MergeLists(xs, ys) == xs + ys
    decreases |ys|
  {
    if ys == [] {
      assert xs + ys == xs;
    } else {
      ConcatenateOnto(xs + [ys[0]], ys[1..]);
      assert (xs + [ys[0]]) + ys[1..] == xs + ys;
    }
  }

  // ---- room in the hash table

  /** The next power of two, from `cap` on, that is at least `need`. */
  function GrowCapacity(cap: nat, need: nat): (r: nat)
    requires cap > 0
    ensures r >= need && r >= cap
    decreases need - cap
  {
    if cap >= need then cap else GrowCapacity(2 * cap, need)
  }

  /** The number of slots used to merge into a list of `n` items. */
  function Capacity(n: nat): (cap: nat)
    ensures cap > n
  {
    if n < SMALL_MERGE_THRESHOLD then SMALL_MERGE_THRESHOLD
    else GrowCapacity(HASH_TABLE_MIN_CAPACITY, 2 * n)
  }

  /** 64 slots for a short list, else the least power of two with room for twice
      the items. */
  lemma {:induction false} CapacityIs(n: nat)
    ensures IsPow2(Capacity(n))
    ensures if n < 64 then Capacity(n) == 64 else 2 * n <= Capacity(n) < 4 * n
  {
    assert Pow2(6) == 64 && Pow2(3) == 8;
    if n >= 64 { GrowCapacityIs(8, 2 * n); }
  }

  lemma {:induction false} GrowCapacityIs(cap: nat, need: nat)
    requires cap > 0 && IsPow2(cap)
    ensures IsPow2(GrowCapacity(cap, need))
    ensures cap < need ==> GrowCapacity(cap, need) < 2 * need
    decreases need - cap
  {
    if cap < need {
      var n: nat :| cap == Pow2(n);
      assert 2 * cap == Pow2(n + 1);
      GrowCapacityIs(2 * cap, need);
    }
  }

  /** Every identity met while merging finds a slot, here and in every merge of
      children this one leads to. */
  predicate FitsTrees(t: Value, s: Value)
    requires t.Obj? && s.Obj?
    decreases s, 1
  {
    forall k :: k in s.fields && SharedList(t, s, k) ==> FitsLists(t.fields[k].items, s.fields[k].items)
  }

  predicate FitsLists(xs: seq<Value>, ys: seq<Value>)
    decreases ys, 1
  {
    |Keys(xs) + Keys(ys)| <= Capacity(|xs|) && FitsItems(xs, ys)
  }

  predicate FitsItems(xs: seq<Value>, ys: seq<Value>)
    decreases ys, 0
  {
    ys != [] ==>
      && (Target(xs, ys[0]) < |xs| ==> FitsTrees(xs[Target(xs, ys[0])], ys[0]))
      && FitsItems(MergeItem(xs, ys[0]), ys[1..])
  }

  lemma {:induction false} MergeListsKeys(xs: seq<Value>, ys: seq<Value>)
    ensures Keys(MergeLists(xs, ys)) == Keys(xs) + Keys(ys)
    decreases |ys|
  {
    if ys != [] {
      KeysHead(ys);
      MergeItemKeys(xs, ys[0]);
      MergeListsKeys(MergeItem(xs, ys[0]), ys[1..]);
    }
  }

  /** The merge arrives at the `i`-th new item with every slot taken and the
      item's identity in none of them, so its probe does not return. */
  predicate StuckAt(xs: seq<Value>, ys: seq<Value>, cap: nat, i: nat)
    requires i < |ys|
  {
    var r := MergeLists(xs, ys[..i]);
    |Keys(r)| == cap && Identity(ys[i]).Some? && Identity(ys[i]).value !in Keys(r)
  }

  lemma {:induction false} StuckOverflows(xs: seq<Value>, ys: seq<Value>, cap: nat, i: nat)
    requires i < |ys| && StuckAt(xs, ys, cap, i)
    ensures |Keys(xs) + Keys(ys)| > cap
  {
    MergeListsKeys(xs, ys[..i]);
    KeysPrefix(ys, i + 1);
    assert ys[..i + 1][..i] == ys[..i];
    var before := Keys(xs) + Keys(ys[..i]);
    var key := Identity(ys[i]).value;
    assert |before + {key}| == cap + 1;
    assert before + {key} <= Keys(xs) + Keys(ys);
    SubsetSize(before + {key}, Keys(xs) + Keys(ys));
  }

  /** The bound in `FitsLists` is exact: beyond it some probe meets a full table
      that does not hold its key, and within it none does. */
  lemma {:induction false} StuckIff(xs: seq<Value>, ys: seq<Value>, cap: nat)
    requires |Keys(xs)| <= cap
    ensures (exists i :: 0 <= i < |ys| && StuckAt(xs, ys, cap, i)) <==> |Keys(xs) + Keys(ys)| > cap
  {
    forall i | 0 <= i < |ys| && StuckAt(xs, ys, cap, i) ensures |Keys(xs) + Keys(ys)| > cap {
      StuckOverflows(xs, ys, cap, i);
    }
    assert ys[..|ys|] == ys;
    if |Keys(xs) + Keys(ys)| > cap { var i := FindStuck(xs, ys, cap, |ys|); }
  }

  /** The number of identities among the existing items and the first `n` new ones. */
  function Together(xs: seq<Value>, ys: seq<Value>, n: nat): (r: nat)
    requires n <= |ys|
  {
    |Keys(xs) + Keys(ys[..n])|
  }

  lemma {:induction false} OneMore(keys: set<Key>, v: Value)
    ensures |keys + KeyOf(v)| == |keys| + if Identity(v).Some? && Identity(v).value !in keys then 1 else 0
  {
    if Identity(v).None? || Identity(v).value in keys { assert keys + KeyOf(v) == keys; }
  }

  /** The item that takes the identities past the capacity. */
  lemma {:induction false} CrossingIsStuck(xs: seq<Value>, ys: seq<Value>, cap: nat, i: nat)
    requires i < |ys| && Together(xs, ys, i) <= cap < Together(xs, ys, i + 1)
    ensures StuckAt(xs, ys, cap, i)
  {
    MergeListsKeys(xs, ys[..i]);
    OneMore(Keys(xs) + Keys(ys[..i]), ys[i]);
    assert ys[..i + 1][..i] == ys[..i];
    assert Keys(xs) + Keys(ys[..i + 1]) == (Keys(xs) + Keys(ys[..i])) + KeyOf(ys[i]);
  }

  lemma {:induction false} TogetherAtFirst(xs: seq<Value>, ys: seq<Value>)
    ensures Together(xs, ys, 0) == |Keys(xs)|
  {
    assert Keys(xs) + {} == Keys(xs);
  }

  lemma {:induction false} FindStuck(xs: seq<Value>, ys: seq<Value>, cap: nat, n: nat) returns (i: nat)
    requires n <= |ys| && |Keys(xs)| <= cap < Together(xs, ys, n)
    ensures i < |ys| && StuckAt(xs, ys, cap, i)
  {
    TogetherAtFirst(xs, ys);
    i := n - 1;
    if Together(xs, ys, i) > cap { i := FindStuck(xs, ys, cap, i); } else { CrossingIsStuck(xs, ys, cap, i); }
  }

  lemma {:induction false} KeysPrefix(xs: seq<Value>, i: nat)
    requires i <= |xs|
    ensures Keys(xs[..i]) <= Keys(xs) && |Keys(xs[..i])| <= |Keys(xs)|
  {
    if i < |xs| {
      KeysPrefix(xs[..|xs| - 1], i);
      assert xs[..|xs| - 1][..i] == xs[..i];
      SubsetSize(Keys(xs[..i]), Keys(xs));
    } else {
      assert xs[..i] == xs;
    }
  }

  /** The items of `ys`, and of every list below them, that carry an identity
      number at most one per list. */
  predicate Narrow(v: Value) {
    match v
    case Obj(fields) => forall k :: k in fields ==> Narrow(fields[k])
    case Lst(items) => |Keys(items)| <= 1 && forall i :: 0 <= i < |items| ==> Narrow(items[i])
    case _ => true
  }

  /** A source whose lists are narrow fits into every target: 63 + 1 <= 64, and
      the heap table has at least twice the existing items. */
  lemma {:induction false} NarrowFitsTrees(t: Value, s: Value)
    requires t.Obj? && s.Obj? && Narrow(s)
    ensures FitsTrees(t, s)
    decreases s, 1
  {
    forall k | k in s.fields && SharedList(t, s, k)
      ensures FitsLists(t.fields[k].items, s.fields[k].items)
    {
      assert Narrow(s.fields[k]);
      NarrowFitsLists(t.fields[k].items, s.fields[k].items);
    }
  }

  lemma {:induction false} NarrowFitsLists(xs: seq<Value>, ys: seq<Value>)
    requires |Keys(ys)| <= 1 && forall i :: 0 <= i < |ys| ==> Narrow(ys[i])
    ensures FitsLists(xs, ys)
    decreases ys, 1
  {
    KeysSize(xs);
    NarrowFitsItems(xs, ys);
  }

  lemma {:induction false} NarrowFitsItems(xs: seq<Value>, ys: seq<Value>)
    requires forall i :: 0 <= i < |ys| ==> Narrow(ys[i])
    ensures FitsItems(xs, ys)
    decreases ys, 0
  {
    if ys != [] {
      var j := Target(xs, ys[0]);
      if j < |xs| { NarrowFitsTrees(xs[j], ys[0]); }
      NarrowFitsItems(MergeItem(xs, ys[0]), ys[1..]);
    }
  }
}
