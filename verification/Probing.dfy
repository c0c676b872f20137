/** The probe sequence of the open-addressing table behind `to_tree`
    (`optimized_probe`): start at `h mod cap`, then move on by 1, 2, 3, ...
    modulo the capacity.  For a power-of-two capacity the first `cap` slots
    visited are pairwise different, so they are all the slots there are. */
module Probing {

  function Pow2(n: nat): (p: nat)
    ensures p >= 1
  {
    if n == 0 then 1 else 2 * Pow2(n - 1)
  }

  ghost predicate IsPow2(cap: nat) {
    exists n: nat :: cap == Pow2(n)
  }

  function Tri(k: nat): (t: nat) {
    if k == 0 then 0 else Tri(k - 1) + k
  }

  /** `x & (cap - 1)` for a power-of-two capacity: what is left of `x` once every
      multiple of `cap` is taken away. */
  function Mask(x: nat, cap: nat): (p: nat)
    requires cap > 0
    ensures p < cap
  {
    if x < cap then x else Mask(x - cap, cap)
  }

  lemma {:induction false} MaskSmall(x: nat, cap: nat)
    requires 0 < cap && x <= cap
    ensures Mask(x, cap) == if x == cap then 0 else x
  {
    if x == cap { assert Mask(0, cap) == 0; }
  }

  lemma {:induction false} MaskQuotient(x: nat, cap: nat) returns (q: nat)
    requires cap > 0
    ensures Mask(x, cap) == x - q * cap
    decreases x
  {
    q := 0;
    if x >= cap {
      var q' := MaskQuotient(x - cap, cap);
      q := q' + 1;
    }
  }

  /** The slot visited after `k` moves: `h` plus the k-th triangular number,
      reduced modulo the capacity one move at a time. */
  function Slot(h: nat, cap: nat, k: nat): (p: nat)
    requires cap > 0
    ensures p < cap
  {
    if k == 0 then Mask(h, cap) else Mask(Slot(h, cap, k - 1) + k, cap)
  }

  /** One move of the loop: `pos` and `step` are both masked by `cap - 1`, and a
      step that wrapped to 0 restarts at 1. */
  function Move(pos: nat, step: nat, cap: nat): (r: (nat, nat))
    requires cap > 0
    ensures r.0 < cap
  {
    var step' := Mask(step + 1, cap);
    (Mask(pos + step, cap), if step' == 0 then 1 else step')
  }

  /** The loop state after `k` moves. */
  function Moves(h: nat, cap: nat, k: nat): (r: (nat, nat))
    requires cap > 0
    ensures r.0 < cap
  {
    if k == 0 then (Mask(h, cap), 1) else
      var (pos, step) := Moves(h, cap, k - 1);
      Move(pos, step, cap)
  }

  /** The wrap of `step` is only reached once the table is exhausted. */
  lemma {:induction false} MovesFollowSlots(h: nat, cap: nat, k: nat)
    requires 0 < cap && k < cap
    ensures Moves(h, cap, k).0 == Slot(h, cap, k)
    ensures Moves(h, cap, k).1 == if k + 1 == cap then 1 else k + 1
  {
    if k > 0 {
      MovesFollowSlots(h, cap, k - 1);
      MaskSmall(k + 1, cap);
    }
  }

  // ---- triangular numbers modulo a power of two

  lemma {:induction false} Distribute(a: int, b: int, m: int)
    ensures (a + b) * m == a * m + b * m
  {}

  /** The closed form of a slot. */
  lemma {:induction false} SlotIsTriangular(h: nat, cap: nat, k: nat) returns (q: int)
    requires cap > 0
    ensures Slot(h, cap, k) == h + Tri(k) - q * cap
  {
    if k == 0 {
      q := MaskQuotient(h, cap);
    } else {
      var q0 := SlotIsTriangular(h, cap, k - 1);
      var q1 := MaskQuotient(Slot(h, cap, k - 1) + k, cap);
      q := q0 + q1;
      Distribute(q0, q1, cap);
    }
  }

  lemma {:induction false} TriDouble(k: nat)
    ensures 2 * Tri(k) == k * (k + 1)
  {
    if k > 0 { TriDouble(k - 1); }
  }

  ghost predicate Multiple(b: int, p: int) {
    exists r :: b == r * p
  }

  lemma {:induction false} EvenByOdd(a: int, b: int, m: int)
    requires a % 2 == 1 && a * b == 2 * m
    ensures b % 2 == 0
  {
    var x := a / 2;
    assert b == a * b - 2 * (x * b);
  }

  /** An odd factor carries no power of two. */
  lemma {:induction false} OddFactor(a: int, b: int, n: nat, q: int)
    requires a % 2 == 1
    requires a * b == q * Pow2(n)
    ensures Multiple(b, Pow2(n))
    decreases n
  {
    if n == 0 {
      assert b == b * Pow2(0);
    } else {
      var half, c := Pow2(n - 1), b / 2;
      assert q * Pow2(n) == 2 * (q * half);
      EvenByOdd(a, b, q * half);
      assert a * (2 * c) == 2 * (a * c);
      OddFactor(a, c, n - 1, q);
      var r :| c == r * half;
      assert b == r * Pow2(n);
    }
  }

  lemma {:induction false} NoSmallMultiple(b: int, p: int)
    requires 0 < b < p
    ensures !Multiple(b, p)
  {
    forall r ensures b != r * p {
      if r >= 1 {
        assert r * p >= p;
      } else {
        assert r * p <= 0;
      }
    }
  }

  lemma {:induction false} TriDifference(i: nat, j: nat)
    ensures 2 * (Tri(j) - Tri(i)) == (j - i) * (j + i + 1)
  {
    TriDouble(i);
    TriDouble(j);
    assert (j - i) * (j + i + 1) == j * (j + 1) - i * (i + 1);
  }

  /** One of two factors with an odd sum carries all of a power of two. */
  lemma {:induction false} OddSum(a: int, b: int, n: nat, q: int)
    requires (a + b) % 2 == 1 && a * b == q * Pow2(n)
    ensures Multiple(a, Pow2(n)) || Multiple(b, Pow2(n))
  {
    if a % 2 == 1 {
      OddFactor(a, b, n, q);
    } else {
      OddFactor(b, a, n, q);
    }
  }

  /** No two of the first 2^n triangular numbers agree modulo 2^n. */
  lemma {:induction false} TriDistinct(n: nat, i: nat, j: nat, q: int)
    requires i < j < Pow2(n)
    ensures Tri(j) - Tri(i) != q * Pow2(n)
  {
    var a, b, p := j - i, j + i + 1, Pow2(n + 1);
    TriDifference(i, j);
    NoSmallMultiple(a, p);
    NoSmallMultiple(b, p);
    assert a * b != q * p by {
      if a * b == q * p {
        OddSum(a, b, n + 1, q);
        assert false;
      }
    }
    Double(q, Pow2(n));
  }

  lemma {:induction false} Double(q: int, p: int)
    ensures q * (2 * p) == 2 * (q * p)
  {}

  /** The first `cap` slots of every probe sequence are pairwise different. */
  lemma {:induction false} SlotsDistinct(h: nat, cap: nat, i: nat, j: nat)
    requires IsPow2(cap) && i < j < cap
    ensures Slot(h, cap, i) != Slot(h, cap, j)
  {
    var n: nat :| cap == Pow2(n);
    var x := SlotIsTriangular(h, cap, i);
    var y := SlotIsTriangular(h, cap, j);
    TriDistinct(n, i, j, y - x);
    Distribute(y - x, x, cap);
  }

  // ---- hence they cover the table

  function Range(n: nat): (r: set<nat>)
    ensures forall i :: i in r <==> 0 <= i < n
    ensures |r| == n
  {
    if n == 0 then {} else Range(n - 1) + {n - 1}
  }

  ghost function Image(f: nat -> nat, n: nat): (r: set<nat>) {
    if n == 0 then {} else Image(f, n - 1) + {f(n - 1)}
  }

  lemma {:induction false} InImage(f: nat -> nat, n: nat, y: nat)
    ensures y in Image(f, n) <==> exists i :: 0 <= i < n && f(i) == y
  {
    if n > 0 { InImage(f, n - 1, y); }
  }

  lemma {:induction false} ImageSize(f: nat -> nat, n: nat)
    requires forall i, j :: 0 <= i < j < n ==> f(i) != f(j)
    ensures |Image(f, n)| == n
  {
    if n > 0 {
      ImageSize(f, n - 1);
      InImage(f, n - 1, f(n - 1));
    }
  }

  lemma {:induction false} SubsetSize<T>(a: set<T>, b: set<T>)
    requires a <= b
    ensures |a| <= |b|
    ensures |a| == |b| ==> a == b
  {
    if a != {} {
      var x :| x in a;
      SubsetSize(a - {x}, b - {x});
    }
  }

  lemma {:induction false} InjectionCovers(f: nat -> nat, n: nat, p: nat)
    requires forall i :: 0 <= i < n ==> f(i) < n
    requires forall i, j :: 0 <= i < j < n ==> f(i) != f(j)
    requires p < n
    ensures exists k :: 0 <= k < n && f(k) == p
  {
    ImageSize(f, n);
    forall y | y in Image(f, n) ensures y in Range(n) { InImage(f, n, y); }
    SubsetSize(Image(f, n), Range(n));
    InImage(f, n, p);
  }

  /** Every slot of a power-of-two table is met within the first `cap` visits,
      whatever the hash, and met by the loop's own `pos`. */
  lemma {:induction false} ProbeCoversTable(h: nat, cap: nat, p: nat) returns (k: nat)
    requires IsPow2(cap) && p < cap
    ensures k < cap && Slot(h, cap, k) == p == Moves(h, cap, k).0
  {
    var f := (i: nat) => Slot(h, cap, i);
    forall i, j | 0 <= i < j < cap ensures f(i) != f(j) { SlotsDistinct(h, cap, i, j); }
    InjectionCovers(f, cap, p);
    k :| 0 <= k < cap && f(k) == p;
    MovesFollowSlots(h, cap, k);
  }

  /** ... and met only once: the first `cap` positions of the loop are a
      permutation of the table. */
  lemma {:induction false} ProbeVisitsOnce(h: nat, cap: nat, i: nat, j: nat)
    requires IsPow2(cap) && i < cap && j < cap
    ensures Moves(h, cap, i).0 == Moves(h, cap, j).0 <==> i == j
  {
    MovesFollowSlots(h, cap, i);
    MovesFollowSlots(h, cap, j);
    if i < j { SlotsDistinct(h, cap, i, j); }
    if j < i { SlotsDistinct(h, cap, j, i); }
  }
}
