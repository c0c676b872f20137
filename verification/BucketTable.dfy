/** The bucket table of the list merges: an array of slots filled in place
    through `optimized_probe`.  Whatever the hash function, the table is a finite
    map from identities to the first item stored under each of them. */
module BucketTable {
  import opened Probing

  /** What two map items are compared by: `_id` and the hash of `_type`. */
  datatype Key = Key(id: int, typeHash: nat)

  /** `at` stands for the stored map: the position of that map in its list. */
  datatype Bucket = Bucket(used: bool, key: Key, at: nat)

  const EMPTY := Bucket(false, Key(0, 0), 0)

  /** The probe stops at a free slot or at the slot of its own key. */
  predicate Stops(b: Bucket, key: Key) {
    !b.used || b.key == key
  }

  /** The first visit, from the `k`-th on, at which the probe stops; the
      capacity if it stops at none of the first `cap` visits. */
  function Search(s: seq<Bucket>, key: Key, h: nat, k: nat): (r: nat)
    requires k <= |s|
    ensures k <= r <= |s|
    ensures r < |s| ==> Stops(s[Slot(h, |s|, r)], key)
    ensures forall j :: k <= j < r ==> !Stops(s[Slot(h, |s|, j)], key)
    decreases |s| - k
  {
    if k == |s| then k
    else if Stops(s[Slot(h, |s|, k)], key) then k
    else Search(s, key, h, k + 1)
  }

  /** A probe returns, and then within `cap` visits, exactly when some slot of
      the table is free or holds the key.  On a full table without the key it
      never does: not at any later visit either. */
  lemma {:induction false} ProbeReturnsIff(s: seq<Bucket>, key: Key, h: nat)
    requires IsPow2(|s|)
    ensures Search(s, key, h, 0) < |s| <==> exists p :: 0 <= p < |s| && Stops(s[p], key)
    ensures (exists k: nat :: Stops(s[Moves(h, |s|, k).0], key))
            <==> exists p :: 0 <= p < |s| && Stops(s[p], key)
  {
    if p :| 0 <= p < |s| && Stops(s[p], key) {
      var k := ProbeCoversTable(h, |s|, p);
      assert Stops(s[Moves(h, |s|, k).0], key);
    }
  }

  /** `optimized_probe`.  The precondition is the source's own: on a full table
      without the key its loop does not end. */
  method Probe(tbl: array<Bucket>, key: Key, h: nat) returns (pos: nat)
    requires IsPow2(tbl.Length)
    requires exists p :: 0 <= p < tbl.Length && Stops(tbl[p], key)
    ensures Search(tbl[..], key, h, 0) < tbl.Length
    ensures pos == Slot(h, tbl.Length, Search(tbl[..], key, h, 0))
  {
    var cap := tbl.Length;
    ghost var s := tbl[..];
    ghost var goal := Search(s, key, h, 0);
    ghost var p :| 0 <= p < cap && Stops(tbl[p], key);
    assert Stops(s[p], key);
    ProbeReturnsIff(s, key, h);
    pos := Mask(h, cap);
    var step := 1;
    ghost var k := 0;
    while tbl[pos].used && tbl[pos].key != key
      invariant 0 <= k <= goal && pos == Slot(h, cap, k)
      invariant step == if k + 1 == cap then 1 else k + 1
      decreases goal - k
    {
      assert !Stops(s[pos], key);
      MaskSmall(step + 1, cap);
      pos := Mask(pos + step, cap);
      step := Mask(step + 1, cap);
      if step == 0 { step := 1; }
      k := k + 1;
    }
    assert Stops(s[pos], key);
  }

  // ---- the table as a finite map

  ghost predicate OneSlotPerKey(s: seq<Bucket>) {
    forall p, q :: 0 <= p < q < |s| && s[p].used && s[q].used ==> s[p].key != s[q].key
  }

  /** Every slot visited before `p` by the probe for `p`'s own key is taken. */
  ghost predicate Reached(s: seq<Bucket>, h: nat, p: nat) {
    exists k :: 0 <= k < |s| && Slot(h, |s|, k) == p && forall j :: 0 <= j < k ==> s[Slot(h, |s|, j)].used
  }

  ghost predicate AllReached(s: seq<Bucket>, hash: Key -> nat) {
    forall p :: 0 <= p < |s| && s[p].used ==> Reached(s, hash(s[p].key), p)
  }

  ghost predicate Stored(s: seq<Bucket>, key: Key) {
    exists p :: 0 <= p < |s| && s[p].used && s[p].key == key
  }

  ghost predicate Holds(s: seq<Bucket>, m: map<Key, nat>) {
    && (forall p :: 0 <= p < |s| && s[p].used ==> s[p].key in m && m[s[p].key] == s[p].at)
    && (forall key :: key in m ==> Stored(s, key))
  }

  ghost predicate Represents(s: seq<Bucket>, hash: Key -> nat, m: map<Key, nat>) {
    IsPow2(|s|) && OneSlotPerKey(s) && AllReached(s, hash) && Holds(s, m)
  }

  lemma {:induction false} EmptyTable(s: seq<Bucket>, hash: Key -> nat)
    requires IsPow2(|s|)
    requires forall p :: 0 <= p < |s| ==> s[p] == EMPTY
    ensures Represents(s, hash, map[])
  {}

  /** The probe finds the entry of a stored key ... */
  lemma {:induction false} LookupStored(s: seq<Bucket>, hash: Key -> nat, key: Key, p: nat)
    requires OneSlotPerKey(s) && AllReached(s, hash)
    requires p < |s| && s[p].used && s[p].key == key
    ensures Search(s, key, hash(key), 0) < |s| && Slot(hash(key), |s|, Search(s, key, hash(key), 0)) == p
  {
    var h, cap := hash(key), |s|;
    assert Reached(s, h, p);
    var k :| 0 <= k < cap && Slot(h, cap, k) == p && forall j :: 0 <= j < k ==> s[Slot(h, cap, j)].used;
    var r := Search(s, key, h, 0);
    assert Stops(s[Slot(h, cap, k)], key);
    assert r <= k;
    var q := Slot(h, cap, r);
    assert s[q].used && s[q].key == s[p].key;
  }

  /** ... and a free slot for any other key. */
  lemma {:induction false} Lookup(s: seq<Bucket>, hash: Key -> nat, m: map<Key, nat>, key: Key)
    requires Represents(s, hash, m)
    requires Search(s, key, hash(key), 0) < |s|
    ensures var b := s[Slot(hash(key), |s|, Search(s, key, hash(key), 0))];
            if key in m then b.used && b.key == key && b.at == m[key] else !b.used
  {
    if key in m {
      assert Stored(s, key);
      var p :| 0 <= p < |s| && s[p].used && s[p].key == key;
      LookupStored(s, hash, key, p);
    }
  }

  lemma {:induction false} InsertReached(s: seq<Bucket>, hash: Key -> nat, p: nat, b: Bucket, k: nat)
    requires AllReached(s, hash)
    requires p < |s| && b.used
    requires k < |s| && Slot(hash(b.key), |s|, k) == p
    requires forall j :: 0 <= j < k ==> s[Slot(hash(b.key), |s|, j)].used
    ensures AllReached(s[p := b], hash)
  {
    var s' := s[p := b];
    forall q | 0 <= q < |s| && s'[q].used ensures Reached(s', hash(s'[q].key), q) {
      var g := hash(s'[q].key);
      if q != p {
        assert Reached(s, g, q);
        var i :| 0 <= i < |s| && Slot(g, |s|, i) == q && forall j :: 0 <= j < i ==> s[Slot(g, |s|, j)].used;
        assert Slot(g, |s'|, i) == q && forall j :: 0 <= j < i ==> s'[Slot(g, |s'|, j)].used;
      } else {
        assert Slot(g, |s'|, k) == q && forall j :: 0 <= j < k ==> s'[Slot(g, |s'|, j)].used;
      }
    }
  }

  lemma {:induction false} InsertHolds(s: seq<Bucket>, m: map<Key, nat>, p: nat, b: Bucket)
    requires Holds(s, m)
    requires p < |s| && !s[p].used && b.used && b.key !in m
    ensures Holds(s[p := b], m[b.key := b.at])
  {
    var s' := s[p := b];
    forall key | key in m[b.key := b.at] ensures Stored(s', key) {
      if key == b.key {
        assert s'[p].used && s'[p].key == key;
      } else {
        assert Stored(s, key);
        var q :| 0 <= q < |s| && s[q].used && s[q].key == key;
        assert s'[q].used && s'[q].key == key;
      }
    }
  }

  /** Filling the slot the probe returned adds the key and disturbs nothing. */
  lemma {:induction false} Insert(s: seq<Bucket>, hash: Key -> nat, m: map<Key, nat>, key: Key, at: nat)
    requires Represents(s, hash, m) && key !in m
    requires Search(s, key, hash(key), 0) < |s|
    ensures var p := Slot(hash(key), |s|, Search(s, key, hash(key), 0));
            Represents(s[p := Bucket(true, key, at)], hash, m[key := at])
  {
    var k := Search(s, key, hash(key), 0);
    var p, b := Slot(hash(key), |s|, k), Bucket(true, key, at);
    Lookup(s, hash, m, key);
    assert forall j :: 0 <= j < k ==> !Stops(s[Slot(hash(key), |s|, j)], key);
    InsertReached(s, hash, p, b, k);
    InsertHolds(s, m, p, b);
  }

  /** The probe for a key meets a stop exactly when the key is stored or the
      table is not yet full. */
  lemma {:induction false} RoomIff(s: seq<Bucket>, hash: Key -> nat, m: map<Key, nat>, key: Key)
    requires Represents(s, hash, m)
    ensures |m| <= |s|
    ensures (exists p :: 0 <= p < |s| && Stops(s[p], key)) <==> key in m || |m| < |s|
  {
    CountUsed(s, |s|);
    forall other ensures other in KeysBelow(s, |s|) <==> other in m.Keys {
      InKeysBelow(s, |s|, other);
      if other in m { assert Stored(s, other); }
    }
    assert KeysBelow(s, |s|) == m.Keys;
    if key in m { assert Stored(s, key); }
    if forall p :: 0 <= p < |s| ==> s[p].used {
      assert UsedBelow(s, |s|) == |s| by { AllUsed(s, |s|); }
    } else {
      var p :| 0 <= p < |s| && !s[p].used;
      SomeFree(s, |s|, p);
      assert Stops(s[p], key);
    }
  }

  ghost function KeysBelow(s: seq<Bucket>, n: nat): (r: set<Key>)
    requires n <= |s|
  {
    if n == 0 then {} else KeysBelow(s, n - 1) + if s[n - 1].used then {s[n - 1].key} else {}
  }

  lemma {:induction false} InKeysBelow(s: seq<Bucket>, n: nat, key: Key)
    requires n <= |s|
    ensures key in KeysBelow(s, n) <==> exists p :: 0 <= p < n && s[p].used && s[p].key == key
  {
    if n > 0 { InKeysBelow(s, n - 1, key); }
  }

  function UsedBelow(s: seq<Bucket>, n: nat): (r: nat)
    requires n <= |s|
    ensures r <= n
  {
    if n == 0 then 0 else UsedBelow(s, n - 1) + if s[n - 1].used then 1 else 0
  }

  lemma {:induction false} CountUsed(s: seq<Bucket>, n: nat)
    requires n <= |s|
    requires forall p, q :: 0 <= p < q < n && s[p].used && s[q].used ==> s[p].key != s[q].key
    ensures |KeysBelow(s, n)| == UsedBelow(s, n)
  {
    if n > 0 {
      CountUsed(s, n - 1);
      if s[n - 1].used { InKeysBelow(s, n - 1, s[n - 1].key); }
    }
  }

  lemma {:induction false} AllUsed(s: seq<Bucket>, n: nat)
    requires n <= |s| && forall p :: 0 <= p < n ==> s[p].used
    ensures UsedBelow(s, n) == n
  {
    if n > 0 { AllUsed(s, n - 1); }
  }

  lemma {:induction false} SomeFree(s: seq<Bucket>, n: nat, p: nat)
    requires p < n <= |s| && !s[p].used
    ensures UsedBelow(s, n) < n
  {
    if p < n - 1 { SomeFree(s, n - 1, p); }
  }

  // ---- every run of probes and inserts

  /** Probe for the key and fill the slot if it is free, as every caller does. */
  function Put(s: seq<Bucket>, hash: Key -> nat, key: Key, at: nat): (r: seq<Bucket>)
    requires 0 < |s|
    ensures |r| == |s|
  {
    var k := Search(s, key, hash(key), 0);
    if k == |s| then s else
      var p := Slot(hash(key), |s|, k);
      if s[p].used then s else s[p := Bucket(true, key, at)]
  }

  function PutAll(s: seq<Bucket>, hash: Key -> nat, ops: seq<(Key, nat)>): (r: seq<Bucket>)
    requires 0 < |s|
    ensures |r| == |s|
    decreases |ops|
  {
    if ops == [] then s
    else var n := |ops| - 1; Put(PutAll(s, hash, ops[..n]), hash, ops[n].0, ops[n].1)
  }

  /** The map that keeps the first value given for each key. */
  function FirstOf(ops: seq<(Key, nat)>): (m: map<Key, nat>)
    decreases |ops|
  {
    if ops == [] then map[]
    else
      var n := |ops| - 1;
      var m := FirstOf(ops[..n]);
      if ops[n].0 in m then m else m[ops[n].0 := ops[n].1]
  }

  /** From the empty table, every run of probe-and-insert whose distinct keys
      fit the capacity leaves a table that represents the first value given for
      each key, and looks every key up accordingly. */
  lemma {:induction false} RunsAreFirstWins(s: seq<Bucket>, hash: Key -> nat, ops: seq<(Key, nat)>)
    requires IsPow2(|s|) && forall p :: 0 <= p < |s| ==> s[p] == EMPTY
    requires |FirstOf(ops)| <= |s|
    ensures Represents(PutAll(s, hash, ops), hash, FirstOf(ops))
    decreases |ops|
  {
    if ops == [] {
      EmptyTable(s, hash);
    } else {
      var n := |ops| - 1;
      var m, t, key := FirstOf(ops[..n]), PutAll(s, hash, ops[..n]), ops[n].0;
      RunsAreFirstWins(s, hash, ops[..n]);
      RoomIff(t, hash, m, key);
      ProbeReturnsIff(t, key, hash(key));
      Lookup(t, hash, m, key);
      if key !in m { Insert(t, hash, m, key, ops[n].1); }
    }
  }
}
