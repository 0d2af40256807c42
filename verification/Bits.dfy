/** Exclusive or on unsigned integers, and single-bit tests. */
module Bits {
  import opened Prelude

  function Pow2(n: nat): (r: nat)
    ensures r >= 1
  {
    if n == 0 then 1 else 2 * Pow2(n - 1)
  }

  /** Bit `k` of `v`, found by shifting right `k` times: the source's `v & (1 << k) != 0`. */
  predicate Bit(v: nat, k: nat) {
    if k == 0 then v % 2 == 1 else Bit(v / 2, k - 1)
  }

  function Xor(a: nat, b: nat): nat
    decreases a + b
  {
    if a == 0 && b == 0 then 0 else (a % 2 + b % 2) % 2 + 2 * Xor(a / 2, b / 2)
  }

  lemma {:induction false} XorZero(a: nat)
    ensures Xor(a, 0) == a && Xor(0, a) == a
  {
    if a > 0 {
      XorZero(a / 2);
    }
  }

  lemma {:induction false} XorSelf(a: nat)
    ensures Xor(a, a) == 0
    decreases a
  {
    if a > 0 {
      XorSelf(a / 2);
    }
  }

  lemma {:induction false} XorCommutes(a: nat, b: nat)
    ensures Xor(a, b) == Xor(b, a)
    decreases a + b
  {
    if a > 0 || b > 0 {
      XorCommutes(a / 2, b / 2);
    }
  }

  /** The lowest bit and the bits above it. */
  lemma XorParts(a: nat, b: nat)
    ensures Xor(a, b) % 2 == (a % 2 + b % 2) % 2 && Xor(a, b) / 2 == Xor(a / 2, b / 2)
  {
  }

  lemma {:induction false} XorCancelRight(a: nat, b: nat)
    ensures Xor(Xor(a, b), b) == a
    decreases a + b
  {
    if b == 0 {
      XorZero(a);
      XorZero(Xor(a, b));
    } else {
      hide Xor;
      XorCancelRight(a / 2, b / 2);
      CancelledParts(a, b);
      SameParts(Xor(Xor(a, b), b), a);
    }
  }

  lemma CancelledParts(a: nat, b: nat)
    ensures Xor(Xor(a, b), b) % 2 == a % 2
    ensures Xor(Xor(a, b), b) / 2 == Xor(Xor(a / 2, b / 2), b / 2)
  {
    hide Xor;
    XorParts(a, b);
    XorParts(Xor(a, b), b);
    ParityCancels(a % 2, b % 2);
  }

  lemma ParityCancels(p: nat, q: nat)
    requires p < 2 && q < 2
    ensures ((p + q) % 2 + q) % 2 == p
  {
  }

  lemma SameParts(x: nat, y: nat)
    requires x % 2 == y % 2 && x / 2 == y / 2
    ensures x == y
  {
  }

  /** XOR with the same value twice cancels. */
  lemma XorCancel(a: nat, b: nat)
    ensures Xor(Xor(a, b), b) == a
    ensures Xor(a, Xor(a, b)) == b
  {
    XorCancelRight(a, b);
    XorCancelRight(b, a);
    XorCommutes(a, b);
    XorCommutes(a, Xor(a, b));
  }

  /** Bit by bit, exactly one of the two is set. */
  lemma {:induction false} XorBit(a: nat, b: nat, k: nat)
    ensures Bit(Xor(a, b), k) <==> Bit(a, k) != Bit(b, k)
    decreases k
  {
    XorParts(a, b);
    if k > 0 {
      XorBit(a / 2, b / 2, k - 1);
    }
  }

  /** Bit `k` is the binary digit of weight two to the k. */
  lemma {:induction false} BitIsDigit(v: nat, k: nat)
    ensures Bit(v, k) <==> v / Pow2(k) % 2 == 1
    decreases k
  {
    if k > 0 {
      BitIsDigit(v / 2, k - 1);
      HalvedQuotient(v, Pow2(k - 1));
    }
  }

  lemma HalvedQuotient(v: nat, p: nat)
    requires p > 0
    ensures v / 2 / p == v / (2 * p)
  {
    var q, r := Divided(v / 2, p);
    var q', r' := Divided(v, 2 * p);
    SameHalf(2 * p, p, v / 2, v % 2, q, r, q', r');
  }

  lemma Divided(v: nat, w: nat) returns (q: nat, r: nat)
    requires w > 0
    ensures q == v / w && v == q * w + r && r < w
  {
    q, r := v / w, v % w;
  }

  /** Both are the quotient of `2 * h + b` by `w`. */
  lemma SameHalf(w: nat, p: nat, h: nat, b: nat, q: nat, r: nat, q': nat, r': nat)
    requires w == 2 * p && b < 2 && r < p && r' < w
    requires h == q * p + r && 2 * h + b == q' * w + r'
    ensures q == q'
  {
    DoubledProduct(q, p);
    assert q * w == 2 * (q * p);
    SameQuotient(w, q, 2 * r + b, q', r');
  }

  lemma DoubledProduct(q: nat, p: nat)
    ensures q * (2 * p) == 2 * (q * p)
  {
  }

  lemma {:induction false} XorBelow(a: nat, b: nat, n: nat)
    requires a < Pow2(n) && b < Pow2(n)
    ensures Xor(a, b) < Pow2(n)
  {
    if n > 0 && (a > 0 || b > 0) {
      XorBelow(a / 2, b / 2, n - 1);
    }
  }

  lemma {:induction false} Pow256IsPow2(n: nat)
    ensures Pow256(n) == Pow2(8 * n)
  {
    if n > 0 {
      Pow256IsPow2(n - 1);
      var p := Pow2(8 * n - 8);
      assert Pow2(8 * n - 6) == 4 * p;
      assert Pow2(8 * n - 4) == 16 * p;
      assert Pow2(8 * n - 2) == 64 * p;
    }
  }

  /** XOR of two values of at most `n` bytes stays within `n` bytes. */
  lemma XorWithin(a: nat, b: nat, n: nat)
    requires a < Pow256(n) && b < Pow256(n)
    ensures Xor(a, b) < Pow256(n)
  {
    Pow256IsPow2(n);
    XorBelow(a, b, 8 * n);
  }

  function XorByte(a: byte, b: byte): byte {
    XorWithin(a, b, 1);
    Xor(a, b)
  }

  /** XOR of two byte strings of the same length. */
  function XorBytes(a: bytes, b: bytes): (r: bytes)
    requires |a| == |b|
    ensures |r| == |a|
  {
    seq(|a|, i requires 0 <= i < |a| => XorByte(a[i], b[i]))
  }
}
