/** What merging two lists gives, position by position: the existing items stay
    where they are, items without identity and first items of a new identity are
    appended in order, and every item takes in, in order, all new items of its
    identity.  With `MergedField` this says what every field of a merged map is. */
module ListMerge {
  import opened Options
  import opened BucketTable
  import opened TreeValues
  import opened Merge

  /** No identity, or one that neither the existing list nor an earlier new item has. */
  ghost predicate Opens(xs: seq<Value>, ys: seq<Value>, i: nat)
    requires i < |ys|
  {
    Identity(ys[i]).Some? ==> Identity(ys[i]).value !in Keys(xs) && Identity(ys[i]).value !in Keys(ys[..i])
  }

  /** Those among the first `n` new items, in order. */
  ghost function Opening(xs: seq<Value>, ys: seq<Value>, n: nat): (r: seq<Value>)
    requires n <= |ys|
  {
    if n == 0 then []
    else if Opens(xs, ys, n - 1) then Opening(xs, ys, n - 1) + [ys[n - 1]]
    else Opening(xs, ys, n - 1)
  }

  /** The items of one identity among the first `n`, in order. */
  function Of(ys: seq<Value>, key: Key, n: nat): (r: seq<Value>)
    requires n <= |ys|
    ensures forall i :: 0 <= i < |r| ==> r[i].Obj?
  {
    if n == 0 then []
    else if Identity(ys[n - 1]) == Some(key) then Of(ys, key, n - 1) + [ys[n - 1]]
    else Of(ys, key, n - 1)
  }

  /** Maps merged into one, in order. */
  function MergeAll(t: Value, ss: seq<Value>): (r: Value)
    requires t.Obj? && forall i :: 0 <= i < |ss| ==> ss[i].Obj?
    ensures r.Obj?
    decreases |ss|
  {
    if ss == [] then t else MergeTrees(MergeAll(t, ss[..|ss| - 1]), ss[|ss| - 1])
  }

  /** What stands at position `j`: `base` is the existing items and the appended
      ones.  Only the first item of an identity takes in others, and an appended
      one is itself the first of them. */
  ghost function Grown(base: seq<Value>, held: nat, ys: seq<Value>, n: nat, j: nat): (v: Value)
    requires j < |base| && n <= |ys|
  {
    if Identity(base[j]).None? || Identity(base[j]).value in Keys(base[..j]) then base[j]
    else
      var mine := Of(ys, Identity(base[j]).value, n);
      if j < held then MergeAll(base[j], mine)
      else if mine == [] then base[j]
      else MergeAll(base[j], mine[1..])
  }

  ghost predicate Merged(xs: seq<Value>, ys: seq<Value>, n: nat, r: seq<Value>)
    requires n <= |ys|
  {
    Holds(xs + Opening(xs, ys, n), |xs|, ys, n, r)
  }

  ghost predicate Holds(base: seq<Value>, held: nat, ys: seq<Value>, n: nat, r: seq<Value>)
    requires n <= |ys|
  {
    |r| == |base| && forall j :: 0 <= j < |base| ==> r[j] == Grown(base, held, ys, n, j)
  }

  // ---- one more new item

  lemma {:induction false} MergeListsNext(xs: seq<Value>, ys: seq<Value>, n: nat)
    requires n < |ys|
    ensures MergeLists(xs, ys[..n + 1]) == MergeItem(MergeLists(xs, ys[..n]), ys[n])
    decreases n
  {
    if n == 0 {
      assert ys[..1][1..] == [] && ys[..0] == [];
    } else {
      MergeListsNext(MergeItem(xs, ys[0]), ys[1..], n - 1);
      assert ys[..n + 1][1..] == ys[1..][..n] && ys[..n][1..] == ys[1..][..n - 1];
    }
  }

  lemma {:induction false} FindIsFirst(xs: seq<Value>, key: Key)
    ensures key in Keys(xs) <==> FindFirst(xs, key) < |xs|
    ensures FindFirst(xs, key) < |xs| ==> key !in Keys(xs[..FindFirst(xs, key)])
  {
    InKeys(xs, key);
    var f := FindFirst(xs, key);
    if f < |xs| {
      InKeys(xs[..f], key);
      assert forall i :: 0 <= i < f ==> xs[..f][i] == xs[i];
    }
  }

  lemma {:induction false} PrefixWith(ys: seq<Value>, n: nat, key: Key)
    requires 0 < n <= |ys|
    ensures key in Keys(ys[..n]) <==> key in Keys(ys[..n - 1]) || Identity(ys[n - 1]) == Some(key)
  {
    assert ys[..n] == ys[..n - 1] + [ys[n - 1]];
    KeysNext(ys[..n - 1], ys[n - 1], key);
  }

  lemma {:induction false} OfWith(ys: seq<Value>, key: Key, n: nat)
    requires n <= |ys|
    ensures Of(ys, key, n) != [] <==> key in Keys(ys[..n])
  {
    if n > 0 {
      OfWith(ys, key, n - 1);
      PrefixWith(ys, n, key);
    }
  }

  lemma {:induction false} OpenedWith(xs: seq<Value>, front: seq<Value>, y: Value, key: Key)
    ensures key in Keys(xs + (front + [y])) <==> key in Keys(xs + front) || Identity(y) == Some(key)
  {
    assert xs + (front + [y]) == (xs + front) + [y];
    KeysNext(xs + front, y, key);
  }

  /** An identity is in the list so far exactly if some item met so far has it. */
  lemma {:induction false} OpeningWith(xs: seq<Value>, ys: seq<Value>, n: nat, key: Key)
    requires n <= |ys|
    ensures key in Keys(xs + Opening(xs, ys, n)) <==> key in Keys(xs) || key in Keys(ys[..n])
  {
    if n == 0 {
      assert xs + [] == xs;
    } else {
      OpeningWith(xs, ys, n - 1, key);
      PrefixWith(ys, n, key);
      OpenedWith(xs, Opening(xs, ys, n - 1), ys[n - 1], key);
    }
  }

  lemma {:induction false} MergeAllNext(t: Value, ss: seq<Value>, s: Value)
    requires t.Obj? && s.Obj? && forall i :: 0 <= i < |ss| ==> ss[i].Obj?
    ensures MergeAll(t, ss + [s]) == MergeTrees(MergeAll(t, ss), s)
  {
    assert (ss + [s])[..|ss|] == ss;
  }

  lemma {:induction false} GrownIdentity(base: seq<Value>, held: nat, ys: seq<Value>, n: nat, j: nat)
    requires j < |base| && n <= |ys|
    ensures Identity(Grown(base, held, ys, n, j)) == Identity(base[j])
  {
    if Identity(base[j]).Some? {
      var mine := Of(ys, Identity(base[j]).value, n);
      MergeAllIdentity(base[j], mine);
      if mine != [] { MergeAllIdentity(base[j], mine[1..]); }
    }
  }

  lemma {:induction false} MergeAllIdentity(t: Value, ss: seq<Value>)
    requires t.Obj? && forall i :: 0 <= i < |ss| ==> ss[i].Obj?
    ensures Identity(MergeAll(t, ss)) == Identity(t)
    decreases |ss|
  {
    if ss != [] {
      MergeAllIdentity(t, ss[..|ss| - 1]);
      MergeTreesKeepsIdentity(MergeAll(t, ss[..|ss| - 1]), ss[|ss| - 1]);
    }
  }

  /** Items of other identities stay as they are. */
  lemma {:induction false} GrownOther(base: seq<Value>, held: nat, ys: seq<Value>, n: nat, j: nat)
    requires j < |base| && n < |ys| && (Identity(ys[n]).None? || Identity(base[j]) != Identity(ys[n]))
    ensures Grown(base, held, ys, n + 1, j) == Grown(base, held, ys, n, j)
  {}

  lemma {:induction false} GrownFront(base: seq<Value>, x: Value, held: nat, ys: seq<Value>, n: nat, j: nat)
    requires j < |base| && n <= |ys|
    ensures Grown(base + [x], held, ys, n, j) == Grown(base, held, ys, n, j)
  {
    assert (base + [x])[..j] == base[..j];
  }

  /** The item that takes the new one in. */
  lemma {:induction false} GrownMine(base: seq<Value>, held: nat, ys: seq<Value>, n: nat, j: nat)
    requires j < |base| && n < |ys| && Identity(ys[n]).Some? && Identity(base[j]) == Identity(ys[n])
    requires held <= j ==> Of(ys, Identity(ys[n]).value, n) != []
    ensures Identity(ys[n]).value in Keys(base[..j]) ==>
              Grown(base, held, ys, n + 1, j) == Grown(base, held, ys, n, j)
    ensures Grown(base, held, ys, n, j).Obj?
    ensures Identity(ys[n]).value !in Keys(base[..j]) ==>
              Grown(base, held, ys, n + 1, j) == MergeTrees(Grown(base, held, ys, n, j), ys[n])
  {
    var mine := Of(ys, Identity(ys[n]).value, n);
    MergeAllNext(base[j], mine, ys[n]);
    if mine != [] {
      assert (mine + [ys[n]])[1..] == mine[1..] + [ys[n]];
      MergeAllNext(base[j], mine[1..], ys[n]);
    }
  }

  lemma {:induction false} OpeningNext(xs: seq<Value>, ys: seq<Value>, n: nat)
    requires n < |ys|
    ensures var base := xs + Opening(xs, ys, n);
            && (Identity(ys[n]).None? || Identity(ys[n]).value !in Keys(base) <==> Opens(xs, ys, n))
            && xs + Opening(xs, ys, n + 1) == if Opens(xs, ys, n) then base + [ys[n]] else base
  {
    if Identity(ys[n]).Some? { OpeningWith(xs, ys, n, Identity(ys[n]).value); }
    if Opens(xs, ys, n) {
      assert xs + (Opening(xs, ys, n) + [ys[n]]) == (xs + Opening(xs, ys, n)) + [ys[n]];
    }
  }

  /** The linear search in the merged list finds the place it finds in the base. */
  lemma {:induction false} TargetInBase(base: seq<Value>, r: seq<Value>, y: Value)
    requires |r| == |base| && forall j :: 0 <= j < |r| ==> Identity(r[j]) == Identity(base[j])
    ensures Identity(y).Some? ==> Target(r, y) == FindFirst(base, Identity(y).value)
  {
    if Identity(y).Some? {
      var f, g := FindFirst(r, Identity(y).value), FindFirst(base, Identity(y).value);
      assert f <= g && g <= f;
    }
  }

  lemma {:induction false} NotAmong(base: seq<Value>, key: Key, j: nat)
    requires key !in Keys(base) && j < |base|
    ensures Identity(base[j]) != Some(key)
  {
    KeysHold(base, key);
  }

  lemma {:induction false} AppendedNext(base: seq<Value>, held: nat, ys: seq<Value>, n: nat, r: seq<Value>)
    requires n < |ys| && held <= |base| && Holds(base, held, ys, n, r)
    requires Identity(ys[n]).Some? ==>
               Identity(ys[n]).value !in Keys(base) && Of(ys, Identity(ys[n]).value, n) == []
    ensures Holds(base + [ys[n]], held, ys, n + 1, r + [ys[n]])
  {
    forall j | 0 <= j < |base| ensures Grown(base + [ys[n]], held, ys, n + 1, j) == r[j] {
      GrownFront(base, ys[n], held, ys, n + 1, j);
      if Identity(ys[n]).Some? { NotAmong(base, Identity(ys[n]).value, j); }
      GrownOther(base, held, ys, n, j);
    }
    GrownLast(base, held, ys, n);
  }

  lemma {:induction false} GrownLast(base: seq<Value>, held: nat, ys: seq<Value>, n: nat)
    requires n < |ys| && held <= |base| && (Identity(ys[n]).Some? ==> Of(ys, Identity(ys[n]).value, n) == [])
    ensures Grown(base + [ys[n]], held, ys, n + 1, |base|) == ys[n]
  {
    assert (base + [ys[n]])[|base|] == ys[n];
    if Identity(ys[n]).Some? { assert Of(ys, Identity(ys[n]).value, n + 1)[1..] == []; }
  }

  lemma {:induction false} TakenIn(base: seq<Value>, held: nat, ys: seq<Value>, n: nat, r: seq<Value>, f: nat)
    requires n < |ys| && f < |base| && Identity(ys[n]).Some? && Holds(base, held, ys, n, r)
    requires f == FindFirst(base, Identity(ys[n]).value)
    requires held <= f ==> Of(ys, Identity(ys[n]).value, n) != []
    ensures r[f].Obj? && ys[n].Obj?
    ensures Holds(base, held, ys, n + 1, r[f := MergeTrees(r[f], ys[n])])
  {
    var key := Identity(ys[n]).value;
    FindIsFirst(base, key);
    GrownMine(base, held, ys, n, f);
    forall j | 0 <= j < |base| && j != f ensures Grown(base, held, ys, n + 1, j) == r[j] {
      if Identity(base[j]) == Some(key) {
        assert key in Keys(base[..j]) by {
          assert f < j && base[..j][f] == base[f];
          InKeys(base[..j], key);
        }
      } else {
        GrownOther(base, held, ys, n, j);
      }
    }
  }

  lemma {:induction false} MergedNext(xs: seq<Value>, ys: seq<Value>, n: nat, r: seq<Value>)
    requires n < |ys| && Merged(xs, ys, n, r)
    ensures Merged(xs, ys, n + 1, MergeItem(r, ys[n]))
  {
    var base := xs + Opening(xs, ys, n);
    forall j | 0 <= j < |base| ensures Identity(r[j]) == Identity(base[j]) { GrownIdentity(base, |xs|, ys, n, j); }
    OpeningNext(xs, ys, n);
    TargetInBase(base, r, ys[n]);
    if Identity(ys[n]).Some? {
      OpeningWith(xs, ys, n, Identity(ys[n]).value);
      OfWith(ys, Identity(ys[n]).value, n);
      FindIsFirst(base, Identity(ys[n]).value);
    }
    if Opens(xs, ys, n) {
      AppendedNext(base, |xs|, ys, n, r);
    } else {
      var f := FindFirst(base, Identity(ys[n]).value);
      FoundEarlier(xs, ys, n);
      TakenIn(base, |xs|, ys, n, r, f);
    }
  }

  /** An appended item was met among the new ones. */
  lemma {:induction false} FoundEarlier(xs: seq<Value>, ys: seq<Value>, n: nat)
    requires n < |ys| && Identity(ys[n]).Some?
    ensures var key := Identity(ys[n]).value;
            |xs| <= FindFirst(xs + Opening(xs, ys, n), key) < |xs + Opening(xs, ys, n)| ==> Of(ys, key, n) != []
  {
    var key := Identity(ys[n]).value;
    var base := xs + Opening(xs, ys, n);
    OpeningWith(xs, ys, n, key);
    OfWith(ys, key, n);
    var f := FindFirst(base, key);
    if |xs| <= f < |base| {
      InKeys(base, key);
      InKeys(xs, key);
      assert forall i :: 0 <= i < |xs| ==> base[i] == xs[i];
    }
  }

  /** What a list merge gives, for all lists. */
  lemma {:induction false} MergeListsMeans(xs: seq<Value>, ys: seq<Value>)
    ensures Merged(xs, ys, |ys|, MergeLists(xs, ys))
  {
    MergedUpTo(xs, ys, |ys|);
    assert ys[..|ys|] == ys;
  }

  lemma {:induction false} MergedUpTo(xs: seq<Value>, ys: seq<Value>, n: nat)
    requires n <= |ys|
    ensures Merged(xs, ys, n, MergeLists(xs, ys[..n]))
  {
    if n == 0 {
      StartMerged(xs, ys);
    } else {
      MergedUpTo(xs, ys, n - 1);
      MergeListsNext(xs, ys, n - 1);
      MergedNext(xs, ys, n - 1, MergeLists(xs, ys[..n - 1]));
    }
  }

  lemma {:induction false} StartMerged(xs: seq<Value>, ys: seq<Value>)
    ensures Merged(xs, ys, 0, MergeLists(xs, ys[..0]))
  {
    assert xs + [] == xs && ys[..0] == [];
    forall j | 0 <= j < |xs| ensures Grown(xs, |xs|, ys, 0, j) == xs[j] {}
  }

  // ---- and what that makes of maps

  /** `_id` and `_type` are the target's.  Any other key is there if it is in one
      of the maps: with the value of the only map that has it; with the target's
      if not both values are lists; and else with the merged list. */
  lemma {:induction false} MergedField(t: Value, s: Value, k: string)
    requires t.Obj? && s.Obj?
    ensures var a, b, r := t.fields, s.fields, MergeTrees(t, s).fields;
            if k == "_id" || k == "_type" then (k in r <==> k in a) && (k in a ==> r[k] == a[k])
            else
              && (k in r <==> k in a || k in b)
              && (k in b && k !in a ==> r[k] == b[k])
              && (k in a && (k !in b || !a[k].Lst? || !b[k].Lst?) ==> r[k] == a[k])
              && (k in a && k in b && a[k].Lst? && b[k].Lst? ==>
                    r[k].Lst? && Merged(a[k].items, b[k].items, |b[k].items|, r[k].items))
  {
    var a, b := t.fields, s.fields;
    if k in a && k in b && a[k].Lst? && b[k].Lst? { MergeListsMeans(a[k].items, b[k].items); }
  }

  /** In particular lists without identities are concatenated, whatever the
      target's list holds. */
  lemma {:induction false} PlainFieldsConcatenate(t: Value, s: Value, k: string)
    requires t.Obj? && s.Obj? && k != "_id" && k != "_type" && k in t.fields && k in s.fields
    requires t.fields[k].Lst? && s.fields[k].Lst?
    requires forall i :: 0 <= i < |s.fields[k].items| ==> Identity(s.fields[k].items[i]).None?
    ensures MergeTrees(t, s).fields[k] == Lst(t.fields[k].items + s.fields[k].items)
  {
    ConcatenateOnto(t.fields[k].items, s.fields[k].items);
  }
}
