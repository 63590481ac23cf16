/** Fixed-width bit operations on naturals, and what clearing the low bits comes to. */
module Bits {
  function Pow2(n: nat): (p: nat)
    ensures 1 <= p
  {
    if n == 0 then 1 else 2 * Pow2(n - 1)
  }

  /** Bitwise and. */
  function And(a: nat, b: nat): nat {
    if a == 0 || b == 0 then 0
    else 2 * And(a / 2, b / 2) + if a % 2 == 1 && b % 2 == 1 then 1 else 0
  }

  /** The all-ones word of a width. */
  function Max(width: nat): nat {
    Pow2(width) - 1
  }

  /** A shift to the left that drops the bits beyond the width. */
  function ShiftLeft(a: nat, amount: nat, width: nat): nat {
    a * Pow2(amount) % Pow2(width)
  }

  /** The bits of a word above its low `k` bits. */
  function ShiftRight(a: nat, k: nat): nat {
    NonNegativeQuotient(a, Pow2(k));
    a / Pow2(k)
  }

  /** Bit `i` of a word, counted from the least significant one. */
  predicate Bit(a: nat, i: nat) {
    ShiftRight(a, i) % 2 == 1
  }

  lemma NonNegativeQuotient(a: nat, b: nat)
    requires 0 < b
    ensures 0 <= a / b
  {
  }

  // ---------------------------------------------------------------------
  // Powers of two and quotients
  // ---------------------------------------------------------------------

  lemma {:induction false} Pow2Adds(m: nat, n: nat)
    ensures Pow2(m + n) == Pow2(m) * Pow2(n)
  {
    if m > 0 {
      Pow2Adds(m - 1, n);
      assert Pow2(m + n) == 2 * Pow2(m - 1 + n);
      assert 2 * (Pow2(m - 1) * Pow2(n)) == (2 * Pow2(m - 1)) * Pow2(n);
    }
  }

  lemma MultiplyMonotone(x: int, y: int, c: nat)
    requires x <= y
    ensures x * c <= y * c
  {
  }

  lemma QuotientIs(a: int, b: int, q: int, r: int)
    requires 0 <= r < b && a == q * b + r
    ensures a / b == q && a % b == r
  {
    var q' := a / b;
    assert q' * b <= a < q' * b + b;
    if q < q' {
      MultiplyMonotone(q + 1, q', b);
    } else if q' < q {
      MultiplyMonotone(q' + 1, q, b);
    }
  }

  lemma QuotientOfQuotient(a: nat, b: nat, c: nat)
    requires 0 < b && 0 < c
    ensures 0 < b * c && a / b / c == a / (b * c)
  {
    var q, r := a / b, a % b;
    var q', r' := q / c, q % c;
    assert a == q * b + r && q == q' * c + r';
    MultiplyMonotone(r', c - 1, b);
    MultiplyMonotone(1, c, b);
    assert r' * b + r < c * b;
    assert (q' * c + r') * b == q' * (b * c) + r' * b;
    QuotientIs(a, b * c, q', r' * b + r);
  }

  // ---------------------------------------------------------------------
  // Masks
  // ---------------------------------------------------------------------

  lemma {:induction false} AndOnes(a: nat, p: nat)
    requires a < Pow2(p)
    ensures And(a, Max(p)) == a
  {
    if p > 0 && a > 0 {
      AndOnes(a / 2, p - 1);
      assert Max(p) / 2 == Max(p - 1) && Max(p) % 2 == 1;
    }
  }

  /** `p` ones above `k` zeros. */
  function OnesAbove(p: nat, k: nat): nat {
    if k == 0 then Max(p) else 2 * OnesAbove(p, k - 1)
  }

  /** A word with its low `k` bits cleared. */
  function KeepHigh(a: nat, k: nat): nat {
    if k == 0 then a else 2 * KeepHigh(a / 2, k - 1)
  }

  /** Masking with `p` ones above `k` zeros clears the low `k` bits of a word of `p + k` bits. */
  lemma {:induction false} AndMask(a: nat, p: nat, k: nat)
    requires a < Pow2(p + k)
    ensures And(a, OnesAbove(p, k)) == KeepHigh(a, k)
  {
    if k == 0 {
      AndOnes(a, p);
    } else {
      AndMask(a / 2, p, k - 1);
      AndDouble(a, OnesAbove(p, k - 1));
    }
  }

  lemma {:induction false} OnesAboveIsProduct(p: nat, k: nat)
    ensures OnesAbove(p, k) == Max(p) * Pow2(k)
  {
    if k > 0 {
      OnesAboveIsProduct(p, k - 1);
      DoubleProduct(Max(p), Pow2(k - 1));
    }
  }

  lemma {:induction false} KeepHighIsProduct(a: nat, k: nat)
    ensures KeepHigh(a, k) == ShiftRight(a, k) * Pow2(k)
  {
    if k > 0 {
      KeepHighIsProduct(a / 2, k - 1);
      HalfShift(a, k);
      DoubleProduct(ShiftRight(a, k), Pow2(k - 1));
    }
  }

  lemma HalfShift(a: nat, k: nat)
    requires k > 0
    ensures ShiftRight(a / 2, k - 1) == ShiftRight(a, k)
  {
    QuotientOfQuotient(a, 2, Pow2(k - 1));
  }

  lemma DoubleProduct(x: int, y: int)
    ensures x * (2 * y) == 2 * (x * y)
  {
  }

  lemma AndDouble(a: nat, m: nat)
    ensures And(a, 2 * m) == 2 * And(a / 2, m)
  {
    assert 2 * m / 2 == m && 2 * m % 2 == 0;
  }

  lemma OnesAboveZeros(p: nat, k: nat)
    ensures OnesAbove(p, k) == Pow2(p + k) - Pow2(k)
  {
    OnesAboveIsProduct(p, k);
    Pow2Adds(p, k);
    OneLess(Pow2(p), Pow2(k));
  }

  lemma OneLess(x: int, b: int)
    ensures (x - 1) * b == x * b - b
  {
  }

  /** Shifting the all-ones word left by `k` leaves ones above `k` zeros. */
  lemma ShiftedOnes(p: nat, k: nat)
    ensures ShiftLeft(Max(p + k), k, p + k) == OnesAbove(p, k)
  {
    OnesAboveZeros(p, k);
    Pow2Adds(p, k);
    MultiplyMonotone(1, Pow2(p), Pow2(k));
    RemainderOfShift(Pow2(p + k), Pow2(k));
  }

  lemma RemainderOfShift(w: nat, b: nat)
    requires 1 <= b <= w
    ensures (w - 1) * b % w == w - b
  {
    assert (w - 1) * b == (b - 1) * w + (w - b);
    QuotientIs((w - 1) * b, w, b - 1, w - b);
  }

  // ---------------------------------------------------------------------
  // Sharing the top bits
  // ---------------------------------------------------------------------

  lemma ShiftTwice(a: nat, k: nat, i: nat)
    ensures ShiftRight(ShiftRight(a, k), i) == ShiftRight(a, k + i)
  {
    Pow2Adds(k, i);
    QuotientOfQuotient(a, Pow2(k), Pow2(i));
  }

  lemma BitOfShifted(a: nat, k: nat, i: nat)
    ensures Bit(ShiftRight(a, k), i) == Bit(a, k + i)
  {
    ShiftTwice(a, k, i);
  }

  ghost predicate SameBits(a: nat, b: nat, low: nat, high: nat) {
    forall i: nat :: low <= i < high ==> Bit(a, i) == Bit(b, i)
  }

  /** Words of `n` bits are equal exactly when all their bits are. */
  lemma {:induction false} BitsDecide(a: nat, b: nat, n: nat)
    requires a < Pow2(n) && b < Pow2(n) && SameBits(a, b, 0, n)
    ensures a == b
  {
    if n > 0 {
      assert ShiftRight(a, 1) == a / 2 && ShiftRight(b, 1) == b / 2;
      forall i: nat | i < n - 1 ensures Bit(a / 2, i) == Bit(b / 2, i) {
        BitOfShifted(a, 1, i);
        BitOfShifted(b, 1, i);
      }
      BitsDecide(a / 2, b / 2, n - 1);
      assert Bit(a, 0) == Bit(b, 0);
      LowBit(a);
      LowBit(b);
    }
  }

  lemma LowBit(a: nat)
    ensures Bit(a, 0) == (a % 2 == 1)
  {
    assert ShiftRight(a, 0) == a;
  }

  /** Two words agree above their low `k` bits exactly when each of those bits agrees. */
  lemma TopBitsDecide(a: nat, b: nat, p: nat, k: nat)
    requires a < Pow2(p + k) && b < Pow2(p + k)
    ensures ShiftRight(a, k) == ShiftRight(b, k) <==> SameBits(a, b, k, p + k)
  {
    var x, y := ShiftRight(a, k), ShiftRight(b, k);
    if x == y {
      forall i: nat | k <= i < p + k ensures Bit(a, i) == Bit(b, i) {
        BitOfShifted(a, k, i - k);
        BitOfShifted(b, k, i - k);
      }
    }
    if SameBits(a, b, k, p + k) {
      forall j: nat | j < p ensures Bit(x, j) == Bit(y, j) {
        BitOfShifted(a, k, j);
        BitOfShifted(b, k, j);
      }
      ShiftedBound(a, p, k);
      ShiftedBound(b, p, k);
      BitsDecide(x, y, p);
    }
  }

  lemma ShiftedBound(a: nat, p: nat, k: nat)
    requires a < Pow2(p + k)
    ensures ShiftRight(a, k) < Pow2(p)
  {
    Pow2Adds(p, k);
    var q := ShiftRight(a, k);
    assert q * Pow2(k) <= a;
    if q >= Pow2(p) {
      MultiplyMonotone(Pow2(p), q, Pow2(k));
    }
  }
}
