/** Bitwise operators on natural numbers, digit by digit, and the meaning of
    the masks and shifts that the C sources write with them. */
module Bits {
  type Byte = x: int | 0 <= x < 256


  function Pow2(n: nat): (p: nat)
    ensures p >= 1
  {
    if n == 0 then 1 else 2 * Pow2(n - 1)
  }

  /** x << k without a word size. */
  function Shl(x: nat, k: nat): nat { if k == 0 then x else 2 * Shl(x, k - 1) }

  /** x >> k. */
  function Shr(x: nat, k: nat): nat { if k == 0 then x else Shr(x / 2, k - 1) }

  /** The k lowest digits of x. */
  function Low(x: nat, k: nat): nat { if k == 0 then 0 else x % 2 + 2 * Low(x / 2, k - 1) }

  function And(x: nat, y: nat): nat
    decreases x
  {
    if x == 0 || y == 0 then 0
    else 2 * And(x / 2, y / 2) + (if x % 2 == 1 && y % 2 == 1 then 1 else 0)
  }

  function Or(x: nat, y: nat): nat
    decreases x + y
  {
    if x == 0 then y else if y == 0 then x
    else 2 * Or(x / 2, y / 2) + (if x % 2 == 1 || y % 2 == 1 then 1 else 0)
  }

  function Xor(x: nat, y: nat): nat
    decreases x + y
  {
    if x == 0 then y else if y == 0 then x
    else 2 * Xor(x / 2, y / 2) + (if x % 2 != y % 2 then 1 else 0)
  }

  /** Number of binary digits, 0 for 0. */
  function BitLength(x: nat): nat {
    if x == 0 then 0 else 1 + BitLength(x / 2)
  }

  /** Trailing zero digits among the lowest `width` ones. */
  function TrailingZeros(x: nat, width: nat): (t: nat)
    ensures t <= width
  {
    if width == 0 || x % 2 == 1 then 0 else 1 + TrailingZeros(x / 2, width - 1)
  }

  lemma {:induction false} Pow2Monotone(a: nat, b: nat)
    requires a <= b
    ensures Pow2(a) <= Pow2(b)
  {
    if a < b { Pow2Monotone(a, b - 1); }
  }

  // ---------------------------------------------------------------- shifts as arithmetic

  lemma {:induction false} ShlIsMul(x: nat, k: nat)
    ensures Shl(x, k) == x * Pow2(k)
  {
    if k > 0 { ShlIsMul(x, k - 1); }
  }

  /** Shifting right divides and the digits shifted out are the remainder. */
  lemma {:induction false} ShrIsDiv(x: nat, k: nat)
    ensures Shr(x, k) == x / Pow2(k) && Low(x, k) == x % Pow2(k)
  {
    Recompose(x, k);
    ShlIsMul(Shr(x, k), k);
    QuotientUnique(x, Pow2(k), Shr(x, k), Low(x, k));
  }

  lemma MulAtLeast(p: int, k: int)
    requires p > 0 && k >= 1
    ensures p * k >= p
  {
    assert p * k == p + p * (k - 1);
    assert p * (k - 1) >= 0;
  }

  lemma MulMonotone(x: nat, y: nat, p: nat)
    requires x <= y
    ensures x * p <= y * p
  {
    assert y * p == x * p + (y - x) * p;
  }

  lemma QuotientUnique(x: int, p: int, q: int, r: int)
    requires p > 0 && x == q * p + r && 0 <= r < p
    ensures x / p == q && x % p == r
  {
    var q', r' := x / p, x % p;
    assert p * (q' - q) == r - r' && p * (q - q') == r' - r;
    if q' > q {
      MulAtLeast(p, q' - q);
    } else if q' < q {
      MulAtLeast(p, q - q');
    }
  }

  lemma {:induction false} ShlAdd(x: nat, y: nat, k: nat)
    ensures Shl(x + y, k) == Shl(x, k) + Shl(y, k)
  {
    if k > 0 { ShlAdd(x, y, k - 1); }
  }

  lemma {:induction false} ShlShl(x: nat, a: nat, b: nat)
    ensures Shl(Shl(x, a), b) == Shl(x, a + b)
  {
    if b > 0 { ShlShl(x, a, b - 1); }
  }

  lemma {:induction false} ShlInner(x: nat, k: nat)
    ensures Shl(2 * x, k) == 2 * Shl(x, k)
  {
    if k > 0 { ShlInner(x, k - 1); }
  }

  lemma {:induction false} ShlMonotone(x: nat, y: nat, k: nat)
    requires x <= y
    ensures Shl(x, k) <= Shl(y, k)
  {
    if k > 0 { ShlMonotone(x, y, k - 1); }
  }

  /** Everything below 2^a, moved up by b digits, leaves room for b digits below 2^(a + b). */
  lemma {:induction false} ShlBound(x: nat, a: nat, b: nat)
    requires x < Pow2(a)
    ensures Shl(x, b) + Pow2(b) <= Pow2(a + b)
  {
    if b > 0 { ShlBound(x, a, b - 1); }
  }

  /** A number is its high digits moved up, plus its low digits. */
  lemma {:induction false} Recompose(x: nat, k: nat)
    ensures x == Shl(Shr(x, k), k) + Low(x, k)
    ensures Low(x, k) < Pow2(k)
  {
    if k > 0 { Recompose(x / 2, k - 1); }
  }

  /** ... and in only one way. */
  lemma {:induction false} CutUnique(hi: nat, lo: nat, k: nat)
    requires lo < Pow2(k)
    ensures Shr(Shl(hi, k) + lo, k) == hi && Low(Shl(hi, k) + lo, k) == lo
  {
    if k > 0 {
      CutUnique(hi, lo / 2, k - 1);
      assert (Shl(hi, k) + lo) / 2 == Shl(hi, k - 1) + lo / 2;
    }
  }

  lemma {:induction false} LowSmall(x: nat, k: nat)
    requires x < Pow2(k)
    ensures Low(x, k) == x && Shr(x, k) == 0
  {
    if k > 0 { LowSmall(x / 2, k - 1); }
  }

  /** Shifting left and then keeping w digits drops the top k of them first. */
  lemma {:induction false} LowOfShl(x: nat, k: nat, w: nat)
    requires k <= w
    ensures Low(Shl(x, k), w) == Shl(Low(x, w - k), k)
  {
    if k > 0 { LowOfShl(x, k - 1, w - 1); }
  }

  lemma {:induction false} ShrBound(x: nat, k: nat, w: nat)
    requires k <= w && x < Pow2(w)
    ensures Shr(x, k) < Pow2(w - k)
  {
    if k > 0 { ShrBound(x / 2, k - 1, w - 1); }
  }

  lemma {:induction false} ShrShr(x: nat, a: nat, b: nat)
    ensures Shr(Shr(x, a), b) == Shr(x, a + b)
  {
    if a > 0 { ShrShr(x / 2, a - 1, b); }
  }

  /** The digit at position k - 1: the top one of the low k, the bottom one of the rest. */
  lemma {:induction false} TopDigit(x: nat, k: nat)
    requires k > 0
    ensures Shr(x, k - 1) == 2 * Shr(x, k) + Shr(x, k - 1) % 2
    ensures Low(x, k) == Shl(Shr(x, k - 1) % 2, k - 1) + Low(x, k - 1)
  {
    if k > 1 { TopDigit(x / 2, k - 1); }
  }

  // ---------------------------------------------------------------- masks

  /** Masking with k ones keeps the k low digits. */
  lemma {:induction false} AndMask(x: nat, k: nat)
    ensures And(x, Pow2(k) - 1) == Low(x, k)
  {
    if k > 0 {
      var m := Pow2(k) - 1;
      AndMask(x / 2, k - 1);
      assert m / 2 == Pow2(k - 1) - 1 && m % 2 == 1;
      if x == 0 {
        LowSmall(0, k);
      } else {
        assert And(x, m) == 2 * And(x / 2, m / 2) + x % 2;
      }
    }
  }

  /** Masking a field of `bits` ones at position `shift` keeps exactly that field. */
  lemma {:induction false} AndField(x: nat, shift: nat, bits: nat)
    ensures And(x, Shl(Pow2(bits) - 1, shift)) == Shl(Low(Shr(x, shift), bits), shift)
    decreases shift
  {
    var m := Shl(Pow2(bits) - 1, shift);
    if shift == 0 {
      AndMask(x, bits);
    } else {
      AndField(x / 2, shift - 1, bits);
      assert m / 2 == Shl(Pow2(bits) - 1, shift - 1) && m % 2 == 0;
      if x == 0 || m == 0 {
        assert And(x / 2, m / 2) == 0;
      } else {
        assert And(x, m) == 2 * And(x / 2, m / 2);
      }
    }
  }

  /** Joining a shifted word with a word below the shift adds them. */
  lemma {:induction false} OrDisjoint(hi: nat, lo: nat, k: nat)
    requires lo < Pow2(k)
    ensures Or(Shl(hi, k), lo) == Shl(hi, k) + lo
  {
    if k > 0 {
      var x := Shl(hi, k);
      OrDisjoint(hi, lo / 2, k - 1);
      assert x / 2 == Shl(hi, k - 1) && x % 2 == 0;
      if x != 0 && lo != 0 {
        assert Or(x, lo) == 2 * Or(x / 2, lo / 2) + lo % 2;
      }
    }
  }

  lemma {:induction false} XorOnes(x: nat, width: nat)
    requires x < Pow2(width)
    ensures Xor(x, Pow2(width) - 1) == Pow2(width) - 1 - x
  {
    if width > 0 && x > 0 {
      var m := Pow2(width) - 1;
      XorOnes(x / 2, width - 1);
      assert m / 2 == Pow2(width - 1) - 1 && m % 2 == 1;
      assert Xor(x, m) == 2 * Xor(x / 2, m / 2) + (1 - x % 2);
    }
  }

  lemma {:induction false} AndSelf(x: nat)
    ensures And(x, x) == x
  {
    if x > 0 { AndSelf(x / 2); }
  }

  // ---------------------------------------------------------------- lengths and zero counts

  /** A word below 2^k has at most k digits, and one from 2^k up has more. */
  lemma {:induction false} BitLengthAtMost(x: nat, k: nat)
    ensures x < Pow2(k) <==> BitLength(x) <= k
  {
    if k > 0 && x > 0 { BitLengthAtMost(x / 2, k - 1); }
  }

  lemma {:induction false} BitLengthShift(x: nat, k: nat)
    ensures BitLength(Shr(x, k)) == if BitLength(x) <= k then 0 else BitLength(x) - k
  {
    if k > 0 { BitLengthShift(x / 2, k - 1); }
  }

  lemma {:induction false} TrailingZerosShift(x: nat, k: nat, width: nat)
    requires k <= width && Low(x, k) == 0
    ensures TrailingZeros(x, width) == k + TrailingZeros(Shr(x, k), width - k)
  {
    if k > 0 { TrailingZerosShift(x / 2, k - 1, width - 1); }
  }

  /** Fewer than k trailing zeros are already visible in the k low digits. */
  lemma {:induction false} TrailingZerosCut(x: nat, k: nat, width: nat)
    requires k <= width && Low(x, k) != 0
    ensures TrailingZeros(x, width) == TrailingZeros(Low(x, k), k) < k
  {
    if k > 0 && x % 2 == 0 { TrailingZerosCut(x / 2, k - 1, width - 1); }
  }

  /** The `d & (d - 1)` test: it succeeds exactly on the powers of two. */
  lemma {:induction false} PowerOfTwoTest(d: nat, width: nat)
    requires 0 < d < Pow2(width)
    ensures And(d, d - 1) == 0 <==> d == Pow2(TrailingZeros(d, width))
    ensures TrailingZeros(d, width) < width
  {
    if d % 2 == 0 {
      PowerOfTwoTest(d / 2, width - 1);
      assert (d - 1) / 2 == d / 2 - 1;
    } else if d > 1 {
      AndSelf(d / 2);
      assert (d - 1) / 2 == d / 2;
    }
  }
}
