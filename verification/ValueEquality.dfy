/** Equality and hashing of the C++ API's values.  `ValuesEqual` is given two
    objects that are not one and the same: an object always equals itself. */
module ValueEquality {
  import T = TreeValues
  import opened HashMixing

  /** A path is its first node and, per step, a relationship and the node it
      leads to.  Map items come in iteration order. */
  datatype Value =
    | Null
    | Bool(b: bool)
    | Int(i: int)
    | Double(d: real)
    | Str(s: string)
    | List(items: seq<Value>)
    | Map(fields: seq<(string, Value)>)
    | Node(id: int)
    | Relationship(rid: int)
    | Path(start: int, steps: seq<(int, int)>)

  function NodeAt(start: int, steps: seq<(int, int)>, i: nat): (id: int)
    requires i <= |steps|
  {
    if i == 0 then start else steps[i - 1].1
  }

  predicate Numeric(v: Value) { v.Int? || v.Double? }

  /** `value_get_numeric`; `round` is the conversion from integer to double. */
  function AsDouble(round: int -> real, v: Value): (d: real)
    requires Numeric(v)
  {
    if v.Int? then round(v.i) else v.d
  }

  // ---- what equality means

  /** The value with every integer turned into a double. */
  function Canon(round: int -> real, v: Value): (r: Value) {
    match v
    case Int(i) => Double(round(i))
    case List(xs) => List(seq(|xs|, i requires 0 <= i < |xs| => Canon(round, xs[i])))
    case _ => v
  }

  /** No map with an item anywhere inside. */
  predicate Plain(v: Value) {
    match v
    case List(xs) => forall i :: 0 <= i < |xs| ==> Plain(xs[i])
    case Map(fields) => fields == []
    case _ => true
  }

  predicate Same(round: int -> real, a: Value, b: Value) {
    Plain(a) && Canon(round, a) == Canon(round, b)
  }

  predicate SameFirst(round: int -> real, xs: seq<Value>, ys: seq<Value>, n: nat)
    requires n <= |xs| && n <= |ys|
  {
    forall i :: 0 <= i < n ==> Same(round, xs[i], ys[i])
  }

  lemma {:induction false} SameLists(round: int -> real, xs: seq<Value>, ys: seq<Value>)
    ensures Same(round, List(xs), List(ys)) <==> |xs| == |ys| && SameFirst(round, xs, ys, |xs|)
  {
    var cx, cy := Canon(round, List(xs)).items, Canon(round, List(ys)).items;
    assert forall i :: 0 <= i < |xs| ==> cx[i] == Canon(round, xs[i]);
    assert forall i :: 0 <= i < |ys| ==> cy[i] == Canon(round, ys[i]);
    if |xs| == |ys| && SameFirst(round, xs, ys, |xs|) { assert cx == cy; }
    if Same(round, List(xs), List(ys)) { assert cx == cy; }
  }

  // ---- the comparisons

  method ListsEqual(round: int -> real, xs: seq<Value>, ys: seq<Value>) returns (r: bool)
    ensures r <==> Same(round, List(xs), List(ys))
    decreases xs, 0
  {
    SameLists(round, xs, ys);
    if |xs| != |ys| { return false; }
    for i := 0 to |xs|
      invariant SameFirst(round, xs, ys, i)
    {
      var same := ValuesEqual(round, xs[i], ys[i]);
      if !same { return false; }
    }
    return true;
  }

  method PathsEqual(start1: int, steps1: seq<(int, int)>, start2: int, steps2: seq<(int, int)>) returns (r: bool)
    ensures r <==> Path(start1, steps1) == Path(start2, steps2)
  {
    if |steps1| != |steps2| { return false; }
    for i := 0 to |steps1|
      invariant forall k :: 0 <= k < i ==> NodeAt(start1, steps1, k) == NodeAt(start2, steps2, k)
      invariant forall k :: 0 <= k < i ==> steps1[k].0 == steps2[k].0
    {
      if NodeAt(start1, steps1, i) != NodeAt(start2, steps2, i) { return false; }
      if steps1[i].0 != steps2[i].0 { return false; }
    }
    r := NodeAt(start1, steps1, |steps1|) == NodeAt(start2, steps2, |steps1|);
    if r {
      forall k | 0 <= k < |steps1| ensures steps1[k] == steps2[k] {
        assert NodeAt(start1, steps1, k + 1) == NodeAt(start2, steps2, k + 1);
      }
      assert NodeAt(start1, steps1, 0) == NodeAt(start2, steps2, 0);
      assert steps1 == steps2;
    }
  }

  /** The loop gives up on an item whose key equals itself, which is the first, so
      the comparison of values that follows it in the source is never reached. */
  method MapsEqual(round: int -> real, fields1: seq<(string, Value)>, fields2: seq<(string, Value)>) returns (r: bool)
    ensures r <==> Same(round, Map(fields1), Map(fields2))
  {
    if |fields1| != |fields2| { return false; }
    r := true;
    var i := 0;
    while r && i < |fields1|
      invariant 0 <= i <= |fields1|
      invariant r <==> i == 0
    {
      if fields1[i].0 == fields1[i].0 { r := false; }
      i := i + 1;
    }
  }

  method ValuesEqual(round: int -> real, a: Value, b: Value) returns (r: bool)
    ensures r <==> Same(round, a, b)
    decreases a, 1
  {
    if Numeric(a) && Numeric(b) { return AsDouble(round, a) == AsDouble(round, b); }
    match (a, b) {
      case (Null, Null) => r := true;
      case (Bool(x), Bool(y)) => r := x == y;
      case (Str(x), Str(y)) => r := x == y;
      case (List(xs), List(ys)) => r := ListsEqual(round, xs, ys);
      case (Map(xs), Map(ys)) => r := MapsEqual(round, xs, ys);
      case (Node(x), Node(y)) => r := x == y;
      case (Relationship(x), Relationship(y)) => r := x == y;
      case (Path(s, xs), Path(t, ys)) => r := PathsEqual(s, xs, t, ys);
      case _ => r := false;
    }
  }

  // ---- an equivalence, except for maps

  lemma {:induction false} PlainLikeCanon(round: int -> real, a: Value)
    ensures Plain(Canon(round, a)) <==> Plain(a)
  {
    if a.List? {
      forall i | 0 <= i < |a.items| ensures Plain(Canon(round, a.items[i])) <==> Plain(a.items[i]) {
        PlainLikeCanon(round, a.items[i]);
      }
      var c := Canon(round, a).items;
      assert forall i :: 0 <= i < |c| ==> c[i] == Canon(round, a.items[i]);
    }
  }

  /** Symmetric and transitive; a value equals a copy of itself exactly when it
      holds no map with items. */
  lemma {:induction false} SameIsEquivalence(round: int -> real, a: Value, b: Value, c: Value)
    ensures Same(round, a, a) <==> Plain(a)
    ensures Same(round, a, b) <==> Same(round, b, a)
    ensures Same(round, a, b) && Same(round, b, c) ==> Same(round, a, c)
  {
    PlainLikeCanon(round, a);
    PlainLikeCanon(round, b);
  }

  /** What equality compares, kind by kind: numbers as doubles, lists element by
      element, paths node by node and relationship by relationship; maps are equal
      only if both are empty, and values of different kinds never are. */
  lemma {:induction false} SameMeans(round: int -> real, a: Value, b: Value)
    ensures Same(round, a, b) <==>
            if a.Int? || a.Double? then
              (b.Int? || b.Double?) && (if a.Int? then round(a.i) else a.d) == (if b.Int? then round(b.i) else b.d)
            else if a.List? then
              b.List? && |a.items| == |b.items| &&
              forall i :: 0 <= i < |a.items| ==> Same(round, a.items[i], b.items[i])
            else if a.Map? then
              b.Map? && a.fields == [] && b.fields == []
            else a == b
  {
    if a.List? && b.List? { SameLists(round, a.items, b.items); }
  }

  lemma {:induction false} FilledMapExample(round: int -> real)
    ensures var m := Map([("k", Int(1))]); !Same(round, m, m)
  {
    SameIsEquivalence(round, Map([("k", Int(1))]), Null, Null);
  }

  // ---- hashing

  /** The standard library's hashes of the basic types. */
  datatype Hashes = Hashes(round: int -> real, ofBool: bool -> nat, ofDouble: real -> nat, ofString: string -> nat,
    ofInt: int -> nat)

  /** `hash *= prime; hash ^= e`. */
  function Mix(h: nat, e: nat): (r: nat) {
    T.Xor(h * T.FNV_PRIME % T.WORD, e)
  }

  function Fold(hs: seq<nat>, n: nat): (r: nat)
    requires n <= |hs|
  {
    if n == 0 then T.FNV_OFFSET else Mix(Fold(hs, n - 1), hs[n - 1])
  }

  /** Hashing a path of length 0 runs past its end. */
  predicate Hashable(v: Value) {
    match v
    case List(xs) => forall i :: 0 <= i < |xs| ==> Hashable(xs[i])
    case Path(_, steps) => steps != []
    case _ => true
  }

  /** The hashes a path is mixed from: all but the last step, then the last node. */
  function PathHashes(h: Hashes, start: int, steps: seq<(int, int)>, n: nat): (r: seq<nat>)
    requires n <= |steps|
  {
    if n == 0 then []
    else PathHashes(h, start, steps, n - 1) + [h.ofInt(NodeAt(start, steps, n - 1)), h.ofInt(steps[n - 1].0)]
  }

  function KeyHashes(h: Hashes, fields: seq<(string, Value)>, n: nat): (r: seq<nat>)
    requires n <= |fields|
    ensures |r| == n
  {
    if n == 0 then [] else KeyHashes(h, fields, n - 1) + [h.ofString(fields[n - 1].0)]
  }

  function Hash(h: Hashes, v: Value): (r: nat)
    requires Hashable(v)
  {
    match v
    case Null => 31
    case Bool(b) => h.ofBool(b)
    case Int(i) => h.ofDouble(h.round(i))
    case Double(d) => h.ofDouble(d)
    case Str(s) => h.ofString(s)
    case List(xs) => Fold(seq(|xs|, i requires 0 <= i < |xs| => Hash(h, xs[i])), |xs|)
    case Map(fields) => Fold(KeyHashes(h, fields, |fields|), |fields|)
    case Node(id) => h.ofInt(id)
    case Relationship(id) => h.ofInt(id)
    case Path(start, steps) =>
      var hs := PathHashes(h, start, steps, |steps| - 1) + [h.ofInt(NodeAt(start, steps, |steps|))];
      Fold(hs, |hs|)
  }

  lemma {:induction false} HashOfCanon(h: Hashes, v: Value)
    requires Hashable(v)
    ensures Hashable(Canon(h.round, v)) && Hash(h, Canon(h.round, v)) == Hash(h, v)
  {
    if v.List? {
      var c := Canon(h.round, v).items;
      forall i | 0 <= i < |c| ensures Hashable(c[i]) && Hash(h, c[i]) == Hash(h, v.items[i]) {
        HashOfCanon(h, v.items[i]);
      }
      assert seq(|c|, i requires 0 <= i < |c| => Hash(h, c[i])) ==
        seq(|c|, i requires 0 <= i < |c| => Hash(h, v.items[i]));
    }
  }

  /** Equal values have equal hashes, whatever the basic hashes are. */
  lemma {:induction false} EqualsHashAlike(h: Hashes, a: Value, b: Value)
    requires Hashable(a) && Hashable(b) && Same(h.round, a, b)
    ensures Hash(h, a) == Hash(h, b)
  {
    HashOfCanon(h, a);
    HashOfCanon(h, b);
  }

  // ---- what the hash tells apart

  /** The basic hashes are 64-bit words. */
  ghost predicate Words(h: Hashes) {
    && (forall b :: h.ofBool(b) < T.WORD) && (forall d :: h.ofDouble(d) < T.WORD)
    && (forall s :: h.ofString(s) < T.WORD) && (forall i :: h.ofInt(i) < T.WORD)
  }

  predicate AllWords(hs: seq<nat>) {
    forall i :: 0 <= i < |hs| ==> hs[i] < T.WORD
  }

  lemma {:induction false} MixTells(h: nat, g: nat, e: nat, f: nat)
    requires h < T.WORD && g < T.WORD && e < T.WORD && f < T.WORD
    ensures Mix(h, e) < T.WORD
    ensures Mix(h, e) == Mix(g, e) <==> h == g
    ensures Mix(h, e) == Mix(h, f) <==> e == f
  {
    var x, y := h * T.FNV_PRIME % T.WORD, g * T.FNV_PRIME % T.WORD;
    ProductTells(h, g);
    XorOfWords(x, e);
    XorTells(x, y, e);
    XorTells(e, f, x);
    XorSymmetric(x, e);
    XorSymmetric(x, f);
  }

  lemma {:induction false} FoldIsWord(hs: seq<nat>, n: nat)
    requires n <= |hs| && AllWords(hs)
    ensures Fold(hs, n) < T.WORD
  {
    if n > 0 {
      FoldIsWord(hs, n - 1);
      MixTells(Fold(hs, n - 1), 0, hs[n - 1], 0);
    }
  }

  /** One different hash among those mixed makes the result different. */
  lemma {:induction false} FoldTells(hs: seq<nat>, gs: seq<nat>, i: nat, n: nat)
    requires i < n <= |hs| == |gs| && AllWords(hs) && AllWords(gs)
    requires forall j :: 0 <= j < |hs| && j != i ==> hs[j] == gs[j]
    ensures Fold(hs, n) == Fold(gs, n) <==> hs[i] == gs[i]
  {
    FoldIsWord(hs, n - 1);
    FoldIsWord(gs, n - 1);
    if i == n - 1 {
      FoldAlike(hs, gs, i);
      MixTells(Fold(hs, i), 0, hs[i], gs[i]);
    } else {
      FoldTells(hs, gs, i, n - 1);
      MixTells(Fold(hs, n - 1), Fold(gs, n - 1), hs[n - 1], 0);
    }
  }

  lemma {:induction false} FoldAlike(hs: seq<nat>, gs: seq<nat>, n: nat)
    requires n <= |hs| && n <= |gs| && forall j :: 0 <= j < n ==> hs[j] == gs[j]
    ensures Fold(hs, n) == Fold(gs, n)
  {
    if n > 0 { FoldAlike(hs, gs, n - 1); }
  }

  lemma {:induction false} HashIsWord(h: Hashes, v: Value)
    requires Words(h) && Hashable(v)
    ensures Hash(h, v) < T.WORD
  {
    match v
    case List(xs) =>
      var hs := seq(|xs|, i requires 0 <= i < |xs| => Hash(h, xs[i]));
      forall i | 0 <= i < |xs| ensures hs[i] < T.WORD { HashIsWord(h, xs[i]); }
      FoldIsWord(hs, |xs|);
    case Map(fields) =>
      KeyHashesAre(h, fields, |fields|);
      FoldIsWord(KeyHashes(h, fields, |fields|), |fields|);
    case Path(start, steps) =>
      MixedHashes(h, start, steps);
      FoldIsWord(Mixed(h, start, steps), 2 * |steps| - 1);
    case Null =>
    case Bool(b) => assert h.ofBool(b) < T.WORD;
    case Int(i) =>
      var d := h.round(i);
      assert h.ofDouble(d) < T.WORD;
    case Double(d) => assert h.ofDouble(d) < T.WORD;
    case Str(s) => assert h.ofString(s) < T.WORD;
    case Node(i) => assert h.ofInt(i) < T.WORD;
    case Relationship(i) => assert h.ofInt(i) < T.WORD;
  }

  lemma {:induction false} KeyHashesAre(h: Hashes, fields: seq<(string, Value)>, n: nat)
    requires n <= |fields|
    ensures forall i :: 0 <= i < n ==> KeyHashes(h, fields, n)[i] == h.ofString(fields[i].0)
  {
    if n > 0 { KeyHashesAre(h, fields, n - 1); }
  }

  /** Values without parts hash by what they hold. */
  lemma {:induction false} BasicHashes(h: Hashes, b: bool, i: int, d: real, s: string)
    ensures Hash(h, Bool(b)) == h.ofBool(b) && Hash(h, Str(s)) == h.ofString(s)
    ensures Hash(h, Double(d)) == h.ofDouble(d) && Hash(h, Int(i)) == h.ofDouble(h.round(i))
    ensures Hash(h, Node(i)) == h.ofInt(i) && Hash(h, Relationship(i)) == h.ofInt(i)
    ensures Hash(h, Null) == 31 && Hash(h, List([])) == T.FNV_OFFSET && Hash(h, Map([])) == T.FNV_OFFSET
  {}

  /** One more element or key: the product with the FNV prime, in 64 bits, and then
      exclusive or with its hash. */
  lemma {:induction false} CollectionHashes(h: Hashes, xs: seq<Value>, x: Value, fields: seq<(string, Value)>,
      f: (string, Value))
    requires Hashable(List(xs)) && Hashable(x)
    ensures Hashable(List(xs + [x]))
    ensures Hash(h, List(xs + [x])) ==
            T.Xor(Hash(h, List(xs)) * 1099511628211 % 0x1_0000_0000_0000_0000, Hash(h, x))
    ensures Hash(h, Map(fields + [f])) ==
            T.Xor(Hash(h, Map(fields)) * 1099511628211 % 0x1_0000_0000_0000_0000, h.ofString(f.0))
  {
    var hs := seq(|xs|, i requires 0 <= i < |xs| => Hash(h, xs[i]));
    var all := xs + [x];
    var gs := seq(|all|, i requires 0 <= i < |all| => Hash(h, all[i]));
    FoldAlike(hs, gs, |xs|);
    KeyHashesAre(h, fields, |fields|);
    KeyHashesAre(h, fields + [f], |fields| + 1);
    FoldAlike(KeyHashes(h, fields, |fields|), KeyHashes(h, fields + [f], |fields| + 1), |fields|);
  }

  /** Two lists that differ in one element have different hashes, unless these
      elements have the same. */
  lemma {:induction false} ListHashTells(h: Hashes, xs: seq<Value>, ys: seq<Value>, i: nat)
    requires Words(h) && Hashable(List(xs)) && Hashable(List(ys))
    requires i < |xs| == |ys| && forall j :: 0 <= j < |xs| && j != i ==> xs[j] == ys[j]
    ensures Hash(h, List(xs)) == Hash(h, List(ys)) <==> Hash(h, xs[i]) == Hash(h, ys[i])
  {
    var hs := seq(|xs|, j requires 0 <= j < |xs| => Hash(h, xs[j]));
    var gs := seq(|ys|, j requires 0 <= j < |ys| => Hash(h, ys[j]));
    forall j | 0 <= j < |xs| ensures hs[j] < T.WORD && gs[j] < T.WORD {
      HashIsWord(h, xs[j]);
      HashIsWord(h, ys[j]);
    }
    FoldTells(hs, gs, i, |xs|);
  }

  /** Two maps of one size hash by their keys in order alone. */
  lemma {:induction false} MapHashTells(h: Hashes, xs: seq<(string, Value)>, ys: seq<(string, Value)>, i: nat)
    requires Words(h) && i < |xs| == |ys| && forall j :: 0 <= j < |xs| && j != i ==> xs[j].0 == ys[j].0
    ensures Hash(h, Map(xs)) == Hash(h, Map(ys)) <==> h.ofString(xs[i].0) == h.ofString(ys[i].0)
  {
    KeyHashesAre(h, xs, |xs|);
    KeyHashesAre(h, ys, |ys|);
    FoldTells(KeyHashes(h, xs, |xs|), KeyHashes(h, ys, |ys|), i, |xs|);
  }

  /** The `k`-th id a path's hash is mixed from: nodes and relationships in turn, up
      to the last relationship but one, and then the last node. */
  function MixedId(start: int, steps: seq<(int, int)>, k: nat): (id: int)
    requires k < 2 * |steps| - 1
  {
    if k == 2 * |steps| - 2 then NodeAt(start, steps, |steps|)
    else if k % 2 == 0 then NodeAt(start, steps, k / 2)
    else steps[k / 2].0
  }

  function Mixed(h: Hashes, start: int, steps: seq<(int, int)>): (hs: seq<nat>)
    requires steps != []
  {
    PathHashes(h, start, steps, |steps| - 1) + [h.ofInt(NodeAt(start, steps, |steps|))]
  }

  lemma {:induction false} PathHashesAre(h: Hashes, start: int, steps: seq<(int, int)>, n: nat)
    requires n < |steps|
    ensures |PathHashes(h, start, steps, n)| == 2 * n
    ensures forall k :: 0 <= k < 2 * n ==> PathHashes(h, start, steps, n)[k] == h.ofInt(MixedId(start, steps, k))
  {
    if n > 0 { PathHashesAre(h, start, steps, n - 1); }
  }

  lemma {:induction false} MixedHashes(h: Hashes, start: int, steps: seq<(int, int)>)
    requires steps != []
    ensures |Mixed(h, start, steps)| == 2 * |steps| - 1
    ensures forall k :: 0 <= k < 2 * |steps| - 1 ==> Mixed(h, start, steps)[k] == h.ofInt(MixedId(start, steps, k))
  {
    PathHashesAre(h, start, steps, |steps| - 1);
  }

  /** A path hashes like the list of the nodes and relationships mixed. */
  lemma {:induction false} PathHashIsList(h: Hashes, start: int, steps: seq<(int, int)>)
    requires steps != []
    ensures var parts := seq(2 * |steps| - 1, k requires 0 <= k < 2 * |steps| - 1 => Node(MixedId(start, steps, k)));
            Hashable(List(parts)) && Hash(h, Path(start, steps)) == Hash(h, List(parts))
  {
    var parts := seq(2 * |steps| - 1, k requires 0 <= k < 2 * |steps| - 1 => Node(MixedId(start, steps, k)));
    MixedHashes(h, start, steps);
    FoldAlike(Mixed(h, start, steps), seq(|parts|, k requires 0 <= k < |parts| => Hash(h, parts[k])), |parts|);
  }

  /** Two paths of one length that differ in one of these ids have different
      hashes, unless the ids have the same. */
  lemma {:induction false} PathHashTells(h: Hashes, s: int, xs: seq<(int, int)>, t: int, ys: seq<(int, int)>, k: nat)
    requires Words(h) && xs != [] && |xs| == |ys| && k < 2 * |xs| - 1
    requires forall j :: 0 <= j < 2 * |xs| - 1 && j != k ==> MixedId(s, xs, j) == MixedId(t, ys, j)
    ensures Hash(h, Path(s, xs)) == Hash(h, Path(t, ys)) <==> h.ofInt(MixedId(s, xs, k)) == h.ofInt(MixedId(t, ys, k))
  {
    MixedHashes(h, s, xs);
    MixedHashes(h, t, ys);
    FoldTells(Mixed(h, s, xs), Mixed(h, t, ys), k, 2 * |xs| - 1);
  }

  /** Folding looks only at the hashes it has reached. */
  lemma {:induction false} FoldFront(hs: seq<nat>, more: seq<nat>, n: nat)
    requires n <= |hs|
    ensures Fold(hs + more, n) == Fold(hs, n)
  {
    if n > 0 { FoldFront(hs, more, n - 1); }
  }

  lemma {:induction false} PathHashesAlike(h: Hashes, s: int, xs: seq<(int, int)>, t: int, ys: seq<(int, int)>, n: nat)
    requires n <= |xs| && n <= |ys|
    requires forall k :: 0 <= k < n ==> NodeAt(s, xs, k) == NodeAt(t, ys, k) && xs[k].0 == ys[k].0
    ensures PathHashes(h, s, xs, n) == PathHashes(h, t, ys, n)
  {
    if n > 0 { PathHashesAlike(h, s, xs, t, ys, n - 1); }
  }

  /** The hash of a path says nothing of its last relationship and of the node
      that relationship leaves. */
  lemma {:induction false} LastStepUnhashed(h: Hashes, s: int, xs: seq<(int, int)>, t: int, ys: seq<(int, int)>)
    requires |xs| == |ys| > 0 && xs[|xs| - 1].1 == ys[|xs| - 1].1
    requires forall k :: 0 <= k < |xs| - 1 ==> NodeAt(s, xs, k) == NodeAt(t, ys, k) && xs[k].0 == ys[k].0
    ensures Hash(h, Path(s, xs)) == Hash(h, Path(t, ys))
  {
    PathHashesAlike(h, s, xs, t, ys, |xs| - 1);
  }

  // ---- the hashing loops

  method FnvCollection(h: Hashes, xs: seq<Value>) returns (r: nat)
    requires Hashable(List(xs))
    ensures r == Hash(h, List(xs))
    decreases xs, 0
  {
    ghost var hs := seq(|xs|, i requires 0 <= i < |xs| => Hash(h, xs[i]));
    r := T.FNV_OFFSET;
    for i := 0 to |xs|
      invariant r == Fold(hs, i)
    {
      var e := HashValue(h, xs[i]);
      r := Mix(r, e);
    }
  }

  method FnvKeys(h: Hashes, fields: seq<(string, Value)>) returns (r: nat)
    ensures r == Hash(h, Map(fields))
  {
    r := T.FNV_OFFSET;
    for i := 0 to |fields|
      invariant r == Fold(KeyHashes(h, fields, i), i)
    {
      FoldFront(KeyHashes(h, fields, i), [h.ofString(fields[i].0)], i);
      r := Mix(r, h.ofString(fields[i].0));
    }
  }

  method HashPath(h: Hashes, start: int, steps: seq<(int, int)>) returns (r: nat)
    requires steps != []
    ensures r == Hash(h, Path(start, steps))
  {
    r := T.FNV_OFFSET;
    for i := 0 to |steps| - 1
      invariant |PathHashes(h, start, steps, i)| == 2 * i
      invariant r == Fold(PathHashes(h, start, steps, i), 2 * i)
    {
      ghost var hs := PathHashes(h, start, steps, i);
      FoldFront(hs, [h.ofInt(NodeAt(start, steps, i)), h.ofInt(steps[i].0)], 2 * i);
      r := Mix(r, h.ofInt(NodeAt(start, steps, i)));
      r := Mix(r, h.ofInt(steps[i].0));
    }
    FoldFront(PathHashes(h, start, steps, |steps| - 1), [h.ofInt(NodeAt(start, steps, |steps|))], 2 * (|steps| - 1));
    r := Mix(r, h.ofInt(NodeAt(start, steps, |steps|)));
  }

  method HashValue(h: Hashes, v: Value) returns (r: nat)
    requires Hashable(v)
    ensures r == Hash(h, v)
    decreases v, 1
  {
    match v {
      case Null => r := 31;
      case Bool(b) => r := h.ofBool(b);
      case Int(i) => r := h.ofDouble(h.round(i));
      case Double(d) => r := h.ofDouble(d);
      case Str(s) => r := h.ofString(s);
      case List(xs) => r := FnvCollection(h, xs);
      case Map(fields) => r := FnvKeys(h, fields);
      case Node(id) => r := h.ofInt(id);
      case Relationship(id) => r := h.ofInt(id);
      case Path(start, steps) => r := HashPath(h, start, steps);
    }
  }
}
