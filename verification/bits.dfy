/**
 The C bitwise operators the validator applies to its bytes, on non-negative
 integers: `a & b` and `a ^ b` bit by bit from the lowest, and `a >> k` as a
 division by 2^k. The lemmas turn each mask-and-shift the validator writes
 into plain quotients and remainders.
 */
module Bits {

  function Pow2(k: nat): (p: nat)
    ensures p >= 1
  {
    if k == 0 then 1 else 2 * Pow2(k - 1)
  }

  /** `a & b`. */
  function BitAnd(a: nat, b: nat): nat
    decreases a
  {
    if a == 0 || b == 0 then 0
    else (if a % 2 == 1 && b % 2 == 1 then 1 else 0) + 2 * BitAnd(a / 2, b / 2)
  }

  /** `a ^ b`. */
  function BitXor(a: nat, b: nat): nat
    decreases a + b
  {
    if a == 0 then b
    else if b == 0 then a
    else (if a % 2 != b % 2 then 1 else 0) + 2 * BitXor(a / 2, b / 2)
  }

  /** `a >> k`: `k` halvings. */
  function ShiftRight(a: nat, k: nat): nat {
    if k == 0 then a else ShiftRight(a / 2, k - 1)
  }

  /** Shifting right by `k` is dividing by 2^k. */
  lemma {:induction false} ShiftRightIsQuotient(a: nat, k: nat)
    ensures ShiftRight(a, k) == a / Pow2(k)
  {
    if k > 0 {
      ShiftRightIsQuotient(a / 2, k - 1);
      HalveThenDivide(a, k);
    }
  }

  /** Halving `k` times is dividing by 2^k. */
  lemma HalveThenDivide(a: nat, k: nat)
    requires k > 0
    ensures a / 2 / Pow2(k - 1) == a / Pow2(k)
  {
    var p := Pow2(k - 1);
    var q, r := a / 2 / p, a / 2 % p;
    assert a / 2 == q * p + r;
    assert a == q * (2 * p) + (2 * r + a % 2);
    QuotientOf(a, q, 2 * r + a % 2, 2 * p);
  }

  /** Cutting at 2^k: the low `k` bits below, the quotient above. */
  lemma HalveThenModulo(a: nat, k: nat)
    requires k > 0
    ensures a % Pow2(k) == a % 2 + 2 * (a / 2 % Pow2(k - 1))
  {
    var p := Pow2(k - 1);
    var q, r := a / 2 / p, a / 2 % p;
    assert a / 2 == q * p + r;
    assert a == q * (2 * p) + (2 * r + a % 2);
    QuotientOf(a, q, 2 * r + a % 2, 2 * p);
  }

  lemma QuotientOf(v: int, q: int, r: int, k: int)
    requires 0 < k && 0 <= r < k && v == q * k + r
    ensures v / k == q && v % k == r
  {
    var q', r' := v / k, v % k;
    assert (q - q') * k == r' - r;
    if q > q' {
      assert (q - q') * k >= k by { MulAtLeast(q - q', k); }
    } else if q < q' {
      assert (q' - q) * k >= k by { MulAtLeast(q' - q, k); }
    }
  }

  lemma MulAtLeast(n: int, k: int)
    requires 1 <= n && 0 < k
    ensures n * k >= k
  {
  }

  /** A mask of the `k` low bits keeps the remainder by 2^k: `a & (2^k - 1) == a % 2^k`. */
  lemma {:induction false} LowMask(a: nat, k: nat)
    ensures BitAnd(a, Pow2(k) - 1) == a % Pow2(k)
  {
    if k == 0 {
      assert Pow2(0) == 1;
    } else if a == 0 {
      QuotientOf(0, 0, 0, Pow2(k));
    } else {
      var p := Pow2(k - 1);
      LowMaskStep(a, p);
      LowMask(a / 2, k - 1);
      HalveThenModulo(a, k);
    }
  }

  /** One bit of a low mask: `a & (2p - 1)` is bit 0 of `a` and `(a / 2) & (p - 1)` above it. */
  lemma LowMaskStep(a: nat, p: nat)
    requires a > 0 && p >= 1
    ensures BitAnd(a, 2 * p - 1) == a % 2 + 2 * BitAnd(a / 2, p - 1)
  {
    var m := 2 * p - 1;
    assert m % 2 == 1 && m / 2 == p - 1;
  }

  /** `b << k`. */
  function ShiftLeft(b: nat, k: nat): nat {
    if k == 0 then b else 2 * ShiftLeft(b, k - 1)
  }

  /** A mask shifted up by `k` bits: `a & (b << k) == (a >> k & b) << k`. */
  lemma {:induction false} ShiftedMask(a: nat, b: nat, k: nat)
    ensures BitAnd(a, ShiftLeft(b, k)) == ShiftLeft(BitAnd(ShiftRight(a, k), b), k)
  {
    if k == 0 {
      assert Pow2(0) == 1;
    } else {
      var c := ShiftLeft(b, k - 1);
      if a > 0 && c > 0 {
        assert (2 * c) % 2 == 0 && (2 * c) / 2 == c;
        assert BitAnd(a, 2 * c) == 2 * BitAnd(a / 2, c);
      } else if c == 0 {
        ZeroMask(a);
        ZeroMask(ShiftRight(a / 2, k - 1));
      } else {
        assert BitAnd(0, b) == 0;
      }
      ShiftedMask(a / 2, b, k - 1);
    }
  }

  lemma {:induction false} ShiftLeftIsProduct(b: nat, k: nat)
    ensures ShiftLeft(b, k) == b * Pow2(k)
  {
    if k > 0 {
      ShiftLeftIsProduct(b, k - 1);
      assert 2 * (b * Pow2(k - 1)) == b * (2 * Pow2(k - 1));
    }
  }

  /** A field `b` wide at bit `k`, as the C extracts it: `(a & (b << k)) >> k == (a >> k) & b`. */
  lemma ExtractField(a: nat, b: nat, k: nat)
    ensures ShiftRight(BitAnd(a, ShiftLeft(b, k)), k) == BitAnd(ShiftRight(a, k), b)
  {
    var f := BitAnd(ShiftRight(a, k), b);
    ShiftedMask(a, b, k);
    ShiftLeftIsProduct(f, k);
    ShiftRightIsQuotient(f * Pow2(k), k);
    QuotientOf(f * Pow2(k), f, 0, Pow2(k));
  }

  lemma ZeroMask(a: nat)
    ensures BitAnd(a, 0) == 0
  {
  }

  /** Flipping bit `k` adds 2^k when it was clear and subtracts 2^k when it was set. */
  lemma {:induction false} FlipBit(a: nat, k: nat)
    ensures a / Pow2(k) % 2 == 0 ==> BitXor(a, Pow2(k)) == a + Pow2(k)
    ensures a / Pow2(k) % 2 == 1 ==> BitXor(a, Pow2(k)) == a - Pow2(k)
  {
    if k == 0 {
      if a > 0 {
        assert BitXor(a / 2, 0) == a / 2;
      }
    } else if a > 0 {
      var p := Pow2(k - 1);
      assert Pow2(k) == 2 * p && (2 * p) % 2 == 0 && (2 * p) / 2 == p;
      FlipBit(a / 2, k - 1);
      HalveThenDivide(a, k);
    }
  }
}
