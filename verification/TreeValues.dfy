/** The values `to_tree` builds and merges: maps with string keys, lists, and
    everything else.  A map item's identity is its `_id` and the hash of its
    `_type` (`extract_identity`). */
module TreeValues {
  import opened BucketTable
  import opened Options

  /** `Other` stands for the value kinds the conversion never looks into. */
  datatype Value =
    | Int(i: int)
    | Str(s: string)
    | Lst(items: seq<Value>)
    | Obj(fields: map<string, Value>)
    | Other(code: nat)

  const WORD: nat := 0x1_0000_0000_0000_0000
  const FNV_OFFSET: nat := 14695981039346656037
  const FNV_PRIME: nat := 1099511628211

  /** Bitwise exclusive or. */
  function Xor(a: nat, b: nat): (r: nat)
    decreases a + b
  {
    if a == 0 && b == 0 then 0 else (a + b) % 2 + 2 * Xor(a / 2, b / 2)
  }

  /** One 64-bit round: `h ^= c; h *= prime`. */
  function FnvStep(h: nat, c: nat): (r: nat) {
    Xor(h, c) * FNV_PRIME % WORD
  }

  function Byte(c: char): (b: nat) { c as nat % 256 }

  function Fnv(s: string): (h: nat) {
    if s == [] then FNV_OFFSET else FnvStep(Fnv(s[..|s| - 1]), Byte(s[|s| - 1]))
  }

  predicate AllStrings(vs: seq<Value>) {
    forall v :: v in vs ==> v.Str?
  }

  /** The labels joined by ':'. */
  function Joined(labels: seq<Value>): (s: string)
    requires AllStrings(labels)
  {
    if labels == [] then ""
    else
      var n := |labels| - 1;
      if n == 0 then labels[0].s else Joined(labels[..n]) + ":" + labels[n].s
  }

  function TypeHash(v: Value): (r: Option<nat>) {
    match v
    case Str(s) => Some(Fnv(s))
    case Lst(labels) => if labels != [] && AllStrings(labels) then Some(Fnv(Joined(labels))) else None
    case _ => None
  }

  /** The identity of a list item; `None` for items that are not maps with an
      integer `_id` and a string or string-list `_type`. */
  function Identity(v: Value): (r: Option<Key>) {
    if v.Obj? && "_id" in v.fields && "_type" in v.fields && v.fields["_id"].Int? then
      match TypeHash(v.fields["_type"])
      case Some(h) => Some(Key(v.fields["_id"].i, h))
      case None => None
    else None
  }

  /** One label joins to itself, and every further one follows after a ':'. */
  lemma {:induction false} JoinedMeans(labels: seq<Value>, last: string)
    requires AllStrings(labels)
    ensures AllStrings(labels + [Str(last)])
    ensures Joined(labels + [Str(last)]) == if labels == [] then last else Joined(labels) + ":" + last
  {
    assert (labels + [Str(last)])[..|labels|] == labels;
  }

  /** A value has an identity exactly if it is a map with an integer `_id` and a
      `_type` that is a string or a list of strings that is not empty: the id and
      the hash of the string, or of the strings joined. */
  lemma {:induction false} IdentityMeans(v: Value)
    ensures Identity(v).Some? <==>
            && v.Obj? && "_id" in v.fields && v.fields["_id"].Int? && "_type" in v.fields
            && var ty := v.fields["_type"];
               ty.Str? || (ty.Lst? && ty.items != [] && forall i :: 0 <= i < |ty.items| ==> ty.items[i].Str?)
    ensures Identity(v).Some? ==>
              var ty := v.fields["_type"];
              Identity(v).value == Key(v.fields["_id"].i, Fnv(if ty.Str? then ty.s else Joined(ty.items)))
  {}

  /** `optimized_hash`. */
  function Hash(key: Key): (h: nat) {
    FnvStep(key.typeHash, key.id % WORD)
  }

  // ---- the hashing loops of `extract_identity`

  method HashInto(h: nat, s: string, ghost before: string) returns (r: nat)
    requires h == Fnv(before)
    ensures r == Fnv(before + s)
  {
    r := h;
    assert before + s[..0] == before;
    for i := 0 to |s|
      invariant r == Fnv(before + s[..i])
    {
      r := FnvStep(r, Byte(s[i]));
      var t := before + s[..i + 1];
      assert t[..|t| - 1] == before + s[..i];
    }
    assert s[..|s|] == s;
  }

  /** What has been hashed once `i` labels are done: a ':' follows every label
      but the last. */
  ghost function Hashed(labels: seq<Value>, i: nat): (s: string)
    requires i <= |labels| && AllStrings(labels[..i])
  {
    if 0 < i < |labels| then Joined(labels[..i]) + ":" else Joined(labels[..i])
  }

  lemma {:induction false} HashedNext(labels: seq<Value>, i: nat)
    requires i < |labels| && AllStrings(labels[..i]) && labels[i].Str?
    ensures AllStrings(labels[..i + 1])
    ensures Joined(labels[..i + 1]) == Hashed(labels, i) + labels[i].s
  {
    assert labels[..i + 1][..i] == labels[..i];
    if i == 0 { assert Hashed(labels, 0) + labels[0].s == labels[0].s; }
  }

  /** Hashing the labels one by one with ':' in between gives the hash of the
      joined string; a list that is empty or holds a non-string has none. */
  method HashLabels(labels: seq<Value>) returns (r: Option<nat>)
    ensures r == TypeHash(Lst(labels))
  {
    if labels == [] { return None; }
    var h := FNV_OFFSET;
    for i := 0 to |labels|
      invariant AllStrings(labels[..i]) && h == Fnv(Hashed(labels, i))
    {
      if !labels[i].Str? {
        assert labels[i] in labels;
        return None;
      }
      HashedNext(labels, i);
      h := HashInto(h, labels[i].s, Hashed(labels, i));
      if i < |labels| - 1 {
        h := HashInto(h, ":", Joined(labels[..i + 1]));
      }
    }
    assert labels[..|labels|] == labels;
    r := Some(h);
  }

  method ExtractIdentity(v: Value) returns (r: Option<Key>)
    ensures r == Identity(v)
  {
    if !v.Obj? || "_id" !in v.fields || "_type" !in v.fields { return None; }
    var idV, typeV := v.fields["_id"], v.fields["_type"];
    if !idV.Int? { return None; }
    if typeV.Str? {
      var h := HashInto(FNV_OFFSET, typeV.s, "");
      assert "" + typeV.s == typeV.s;
      r := Some(Key(idV.i, h));
    } else if typeV.Lst? {
      var h := HashLabels(typeV.items);
      r := if h.Some? then Some(Key(idV.i, h.value)) else None;
    } else {
      r := None;
    }
  }
}
