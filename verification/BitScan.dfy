/** The branch-free bit scans of klib: leading and trailing zero counts of a
    32-bit word by four halvings, and their 64-bit forms. */
module BitScan {
  import opened Bits

  const WORD := 0x1_0000_0000
  const DWORD := 0x1_0000_0000_0000_0000

  type U32 = x: nat | x < WORD witness 0
  type U64 = x: nat | x < DWORD witness 0

  lemma Pow2Add(a: nat, b: nat)
    ensures Pow2(a + b) == Shl(Pow2(a), b)
  {
    ShlIsMul(1, a);
    ShlIsMul(1, a + b);
    ShlShl(1, a, b);
  }

  lemma WordSizes()
    ensures Pow2(16) == 0x1_0000 && Pow2(31) * 2 == WORD == Pow2(32)
    ensures Pow2(64) == DWORD == Pow2(63) * 2
  {
    assert Pow2(8) == 0x100;
    Pow2Add(8, 8);
    ShlIsMul(Pow2(8), 8);
    Pow2Add(16, 16);
    ShlIsMul(Pow2(16), 16);
    Pow2Add(32, 32);
    ShlIsMul(Pow2(32), 32);
    assert Pow2(32) == 2 * Pow2(31) && Pow2(64) == 2 * Pow2(63);
  }

  /** The halves of a double word, as the `dwords` and `udwords` unions lay them out. */
  function HighWord(x: U64): U32 { x / WORD }

  function LowWord(x: U64): U32 { x % WORD }

  function Join(hi: U32, lo: U32): U64 { hi * WORD + lo }

  lemma Halves(x: U64)
    ensures HighWord(x) == Shr(x, 32) && LowWord(x) == Low(x, 32)
  {
    WordSizes();
    ShrIsDiv(x, 32);
  }

  /** C's unsigned subtraction wraps. */
  function Sub32(x: U32, y: U32): U32 { (x - y) % WORD }

  /** `x & -(b)`: selection by a sign mask. */
  function Select(x: U32, b: bool): (r: U32)
    ensures r == if b then x else 0
  {
    WordSizes();
    AndMask(x, 32);
    LowSmall(x, 32);
    And(x, Sub32(0, if b then 1 else 0))
  }

  /** A mask of `half` ones above `half` zeros. */
  ghost predicate TopMask(mask: nat, half: nat) {
    mask == Shl(Pow2(half) - 1, half)
  }

  lemma HalfMasks()
    ensures TopMask(0xFFFF_0000, 16) && TopMask(0xFF00, 8) && TopMask(0xF0, 4) && TopMask(0xC, 2)
    ensures 0xFFFF == Pow2(16) - 1 && 0xFF == Pow2(8) - 1 && 0xF == Pow2(4) - 1 && 3 == Pow2(2) - 1
  {
    WordSizes();
    WideMasks();
    assert Pow2(4) == 16 && Shl(15, 4) == 0xF0;
    assert Pow2(2) == 4 && Shl(3, 2) == 0xC;
  }

  lemma WideMasks()
    ensures TopMask(0xFFFF_0000, 16) && TopMask(0xFF00, 8) && Pow2(8) == 0x100
  {
    WordSizes();
    assert Pow2(8) == 0x100;
    ShlIsMul(0xFFFF, 16);
    ShlIsMul(0xFF, 8);
  }

  /** `(x & mask) == 0`, with the mask on the high half, tests that the high half is empty. */
  lemma HighHalfEmpty(x: nat, half: nat, mask: nat)
    requires x < Pow2(half + half)
    requires TopMask(mask, half)
    ensures And(x, mask) == 0 <==> x < Pow2(half)
  {
    AndField(x, half, half);
    ShrBound(x, half, half + half);
    LowSmall(Shr(x, half), half);
    Recompose(x, half);
    ShlIsMul(0, half);
    if Shr(x, half) > 0 { ShlMonotone(1, Shr(x, half), half); ShlIsMul(1, half); }
  }

  /** One halving of the leading-zero scan: drop the low half unless the high half is empty. */
  lemma LeadingStep(x: nat, half: nat, mask: nat, t: nat)
    requires x < Pow2(half + half)
    requires TopMask(mask, half)
    requires t == if And(x, mask) == 0 then half else 0
    ensures Shr(x, half - t) < Pow2(half)
    ensures half + half - BitLength(x) == t + (half - BitLength(Shr(x, half - t)))
  {
    HighHalfEmpty(x, half, mask);
    BitLengthAtMost(x, half);
    BitLengthAtMost(x, half + half);
    BitLengthShift(x, half - t);
    BitLengthAtMost(Shr(x, half - t), half);
  }

  method ClzStep(x: nat, r: nat, half: nat, mask: nat) returns (x': nat, r': nat)
    requires x < Pow2(half + half)
    requires TopMask(mask, half)
    ensures x' < Pow2(half)
    ensures r <= r' <= r + half
    ensures r' + half - BitLength(x') == r + half + half - BitLength(x)
  {
    var t := if And(x, mask) == 0 then half else 0;
    LeadingStep(x, half, mask, t);
    x' := Shr(x, half - t);
    r' := r + t;
  }

  /** The last two digits, without a branch. */
  lemma LeadingFinish(x: U32)
    requires x < 4
    ensures Select(Sub32(2, x), And(x, 2) == 0) == 2 - BitLength(x)
  {
    assert And(x, 2) == if x >= 2 then 2 else 0;
    assert BitLength(x) == if x == 0 then 0 else if x == 1 then 1 else 2;
  }

  /** The length of a number by powers of two. */
  lemma LengthMeans(x: nat)
    ensures if x == 0 then BitLength(x) == 0
            else BitLength(x) > 0 && Pow2(BitLength(x) - 1) <= x < Pow2(BitLength(x))
  {
    BitLengthAtMost(x, BitLength(x));
    if x != 0 { BitLengthAtMost(x, BitLength(x) - 1); }
  }

  /** The trailing zeros of a number by divisibility. */
  lemma {:induction false} ZerosMean(x: nat, width: nat)
    requires x < Pow2(width)
    ensures var t := TrailingZeros(x, width);
      if x == 0 then t == width else t < width && x % Pow2(t) == 0 && (x / Pow2(t)) % 2 == 1
  {
    if x % 2 == 0 && width > 0 {
      ZerosMean(x / 2, width - 1);
      if x != 0 { Twice(x, x / 2, Pow2(TrailingZeros(x / 2, width - 1))); }
    }
  }

  lemma Twice(x: nat, h: nat, p: nat)
    requires p > 0 && x == 2 * h && h % p == 0
    ensures x % (2 * p) == 0 && x / (2 * p) == h / p
  {
    var q := h / p;
    assert h == p * q;
    assert x == (2 * p) * q;
    QuotientUnique(x, 2 * p, q, 0);
  }

  method Clzsi2(a: U32) returns (r: U32)
    ensures r == 32 - BitLength(a)
    ensures if a == 0 then r == 32 else r < 32 && Pow2(31 - r) <= a < Pow2(32 - r)
  {
    HalfMasks();
    WordSizes();
    var x: nat, n: nat := a, 0;
    x, n := ClzStep(x, n, 16, 0xFFFF_0000);
    x, n := ClzStep(x, n, 8, 0xFF00);
    x, n := ClzStep(x, n, 4, 0xF0);
    x, n := ClzStep(x, n, 2, 0xC);
    assert Pow2(2) == 4;
    LeadingFinish(x);
    r := n + Select(Sub32(2, x), And(x, 2) == 0);
    LengthMeans(a);
  }

  method CtzStep(x: nat, r: nat, half: nat, mask: nat) returns (x': nat, r': nat)
    requires r + half + half <= 32 && TrailingZeros(x, 32 - r) <= half + half
    requires mask == Pow2(half) - 1
    ensures r <= r' <= r + half
    ensures TrailingZeros(x', 32 - r') <= half
    ensures r' + TrailingZeros(x', 32 - r') == r + TrailingZeros(x, 32 - r)
  {
    var t := if And(x, mask) == 0 then half else 0;
    AndMask(x, half);
    if t == 0 && half > 0 {
      TrailingZerosCut(x, half, 32 - r);
    } else {
      TrailingZerosShift(x, half, 32 - r);
    }
    x' := Shr(x, t);
    r' := r + t;
  }

  /** The last two digits, without a branch. */
  lemma TrailingFinish(x: nat, width: nat)
    requires 2 <= width && TrailingZeros(x, width) <= 2
    ensures And(x, 3) < 4
    ensures Select(Sub32(2, And(x, 3) / 2), And(And(x, 3), 1) == 0) == TrailingZeros(x, width)
  {
    assert 3 == Pow2(2) - 1;
    AndMask(x, 2);
    var low := And(x, 3);
    assert low == Low(x, 2) == x % 2 + 2 * Low(x / 2, 1) && Low(x / 2, 1) == (x / 2) % 2 + 2 * Low(x / 2 / 2, 0);
    assert And(low, 1) == low % 2;
    assert TrailingZeros(x, width) == if x % 2 == 1 then 0 else 1 + TrailingZeros(x / 2, width - 1);
  }

  method Ctzsi2(a: U32) returns (r: U32)
    ensures r == TrailingZeros(a, 32)
    ensures if a == 0 then r == 32 else r < 32 && a % Pow2(r) == 0 && (a / Pow2(r)) % 2 == 1
  {
    HalfMasks();
    var x: nat, n: nat := a, 0;
    x, n := CtzStep(x, n, 16, 0xFFFF);
    x, n := CtzStep(x, n, 8, 0x00FF);
    x, n := CtzStep(x, n, 4, 0x0F);
    x, n := CtzStep(x, n, 2, 0x3);
    TrailingFinish(x, 32 - n);
    x := And(x, 3);
    r := n + Select(Sub32(2, x / 2), And(x, 1) == 0);
    WordSizes();
    ZerosMean(a, 32);
  }

  lemma HalfLengths(a: U64)
    ensures BitLength(a) == if HighWord(a) == 0 then BitLength(LowWord(a)) else 32 + BitLength(HighWord(a))
  {
    WordSizes();
    Halves(a);
    BitLengthShift(a, 32);
    if HighWord(a) == 0 { assert a == LowWord(a); }
  }

  method Clzdi2(a: U64) returns (r: U32)
    ensures r == 64 - BitLength(a)
    ensures if a == 0 then r == 64 else r < 64 && Pow2(63 - r) <= a < Pow2(64 - r)
  {
    LengthMeans(a);
    HalfLengths(a);
    var hi, lo := HighWord(a), LowWord(a);
    var empty := hi == 0;
    var c := Clzsi2(Or(Select(hi, !empty), Select(lo, empty)));
    r := c + Select(32, empty);
  }

  method Ctzdi2(a: U64) returns (r: U32)
    ensures r == TrailingZeros(a, 64)
    ensures if a == 0 then r == 64 else r < 64 && a % Pow2(r) == 0 && (a / Pow2(r)) % 2 == 1
  {
    WordSizes();
    ZerosMean(a, 64);
    Halves(a);
    var hi, lo := HighWord(a), LowWord(a);
    var empty := lo == 0;
    if empty { TrailingZerosShift(a, 32, 64); } else { TrailingZerosCut(a, 32, 64); }
    var c := Ctzsi2(Or(Select(hi, empty), Select(lo, !empty)));
    r := c + Select(32, empty);
  }
}
