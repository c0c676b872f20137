/** The 64-bit rounds behind the hashes of labels and of values: exclusive or and a
    product with an odd number can be undone, so two inputs of one length that
    differ in one place have different hashes. */
module HashMixing {
  import opened Probing
  import opened TreeValues

  // ---- exclusive or

  lemma {:induction false} XorStep(a: nat, b: nat)
    ensures Xor(a, b) == (a + b) % 2 + 2 * Xor(a / 2, b / 2)
  {}

  lemma {:induction false} XorSymmetric(a: nat, b: nat)
    ensures Xor(a, b) == Xor(b, a)
    decreases a + b
  {
    if a + b > 0 { XorSymmetric(a / 2, b / 2); }
  }

  lemma {:induction false} SameDigits(a: nat, b: nat, e: nat, p: nat, q: nat)
    ensures (a + e) % 2 + 2 * p == (b + e) % 2 + 2 * q <==> a % 2 == b % 2 && p == q
  {}

  lemma {:induction false} SameHalves(a: nat, b: nat)
    ensures a == b <==> a % 2 == b % 2 && a / 2 == b / 2
  {}

  lemma {:induction false} XorTells(a: nat, b: nat, e: nat)
    ensures Xor(a, e) == Xor(b, e) <==> a == b
    decreases a + b + e
  {
    if a + b + e > 0 {
      var p, q := Xor(a / 2, e / 2), Xor(b / 2, e / 2);
      assert Xor(a, e) == (a + e) % 2 + 2 * p by { XorStep(a, e); }
      assert Xor(b, e) == (b + e) % 2 + 2 * q by { XorStep(b, e); }
      assert p == q <==> a / 2 == b / 2 by { XorTells(a / 2, b / 2, e / 2); }
      SameDigits(a, b, e, p, q);
      SameHalves(a, b);
    }
  }

  lemma {:induction false} XorBelow(a: nat, b: nat, n: nat)
    requires a < Pow2(n) && b < Pow2(n)
    ensures Xor(a, b) < Pow2(n)
  {
    if n > 0 {
      XorStep(a, b);
      XorBelow(a / 2, b / 2, n - 1);
    }
  }

  lemma {:induction false} Pow2Twice(n: nat, k: nat)
    ensures Pow2(n + k) == Pow2(n) * Pow2(k)
  {
    if n > 0 { Pow2Twice(n - 1, k); }
  }

  lemma {:induction false} Doubled(n: nat, p: nat)
    requires Pow2(n) == p
    ensures Pow2(n + n) == p * p
  {
    Pow2Twice(n, n);
  }

  lemma {:induction false} Pow2Of32(n: nat)
    requires n == 32
    ensures Pow2(n) == 0x1_0000_0000
  {
    assert Pow2(8) == 256;
    Doubled(8, 256);
    Doubled(16, 65536);
  }

  lemma {:induction false} WordIsPow2(n: nat)
    requires n == 64
    ensures Pow2(n) == WORD
  {
    Pow2Of32(32);
    Doubled(32, 0x1_0000_0000);
  }

  lemma {:induction false} XorOfWords(a: nat, b: nat)
    requires a < WORD && b < WORD
    ensures Xor(a, b) < WORD
  {
    WordIsPow2(64);
    XorBelow(a, b, 64);
  }

  /** Binary digit `k`. */
  function Bit(a: nat, k: nat): (b: nat) {
    if k == 0 then a % 2 else Bit(a / 2, k - 1)
  }

  lemma {:induction false} Digits(r: nat, d: nat, p: nat)
    requires d < 2 && r == d + 2 * p
    ensures r % 2 == d && r / 2 == p
  {}

  /** Exclusive or works digit by digit. */
  lemma {:induction false} XorBits(a: nat, b: nat, k: nat)
    ensures Bit(Xor(a, b), k) == (Bit(a, k) + Bit(b, k)) % 2
  {
    XorStep(a, b);
    Digits(Xor(a, b), (a + b) % 2, Xor(a / 2, b / 2));
    if k > 0 { XorBits(a / 2, b / 2, k - 1); } else { SumOfDigits(a, b); }
  }

  lemma {:induction false} SumOfDigits(a: nat, b: nat)
    ensures (a + b) % 2 == (a % 2 + b % 2) % 2
  {}

  // ---- the product

  /** The number that undoes a product with the prime. */
  const UNPRIME: nat := 14886173955864302971

  lemma {:induction false} UnprimeUndoes(h: int)
    ensures h * FNV_PRIME * UNPRIME == h + WORD * (h * 887285111055)
  {}

  lemma {:induction false} Undone(h: nat, q: int, r: int) returns (x: int)
    requires h * FNV_PRIME == q * WORD + r
    ensures r * UNPRIME == h + WORD * x
  {
    UnprimeUndoes(h);
    x := h * 887285111055 - q * UNPRIME;
  }

  lemma {:induction false} SameRest(h: nat, g: nat, x: int, y: int)
    requires h < WORD && g < WORD && h + WORD * x == g + WORD * y
    ensures h == g
  {}

  lemma {:induction false} ProductTells(h: nat, g: nat)
    requires h < WORD && g < WORD
    ensures h * FNV_PRIME % WORD == g * FNV_PRIME % WORD <==> h == g
  {
    var a, b := h * FNV_PRIME, g * FNV_PRIME;
    if a % WORD == b % WORD {
      var x := Undone(h, a / WORD, a % WORD);
      var y := Undone(g, b / WORD, b % WORD);
      SameRest(h, g, x, y);
    }
  }

  // ---- the hash of a string

  lemma {:induction false} FnvStepTells(h: nat, g: nat, c: nat, d: nat)
    requires h < WORD && g < WORD && c < WORD && d < WORD
    ensures FnvStep(h, c) < WORD
    ensures FnvStep(h, c) == FnvStep(g, c) <==> h == g
    ensures FnvStep(h, c) == FnvStep(h, d) <==> c == d
  {
    XorOfWords(h, c);
    XorOfWords(g, c);
    XorOfWords(h, d);
    ProductTells(Xor(h, c), Xor(g, c));
    ProductTells(Xor(h, c), Xor(h, d));
    XorTells(h, g, c);
    XorTells(c, d, h);
    XorSymmetric(h, c);
    XorSymmetric(h, d);
  }

  lemma {:induction false} FnvIsWord(s: string)
    ensures Fnv(s) < WORD
  {
    if s != "" {
      FnvIsWord(s[..|s| - 1]);
      FnvStepTells(Fnv(s[..|s| - 1]), 0, Byte(s[|s| - 1]), 0);
    }
  }

  /** The hash from the FNV offset on, a byte at a time: exclusive or, then the
      product with the FNV prime, in 64 bits. */
  lemma {:induction false} FnvMeans(s: string, c: char)
    ensures Fnv("") == 14695981039346656037
    ensures Fnv(s + [c]) == Xor(Fnv(s), c as nat % 256) * 1099511628211 % 0x1_0000_0000_0000_0000
  {
    assert (s + [c])[..|s|] == s;
  }

  /** Two strings that differ in one character have different hashes, unless the
      characters have the same byte. */
  lemma {:induction false} FnvTells(s: string, t: string, i: nat)
    requires i < |s| == |t| && forall j :: 0 <= j < |s| && j != i ==> s[j] == t[j]
    ensures Fnv(s) == Fnv(t) <==> s[i] as nat % 256 == t[i] as nat % 256
  {
    var n := |s| - 1;
    FnvIsWord(s[..n]);
    FnvIsWord(t[..n]);
    if i == n {
      assert s[..n] == t[..n];
      FnvStepTells(Fnv(s[..n]), 0, Byte(s[n]), Byte(t[n]));
    } else {
      FnvTells(s[..n], t[..n], i);
      FnvStepTells(Fnv(s[..n]), Fnv(t[..n]), Byte(s[n]), 0);
    }
  }
}
