/** 64-bit division by shifting and subtracting 32-bit halves, and its signed wrappers.
    Lemmas about shifts take the word size as a parameter w with Pow2(w) == W. */
module Division {
  import opened Bits
  import opened BitScan

  const HALF := 0x8000_0000_0000_0000
  const TOP_BIT := 0x8000_0000

  /** What the machine does with a division: it traps on a zero divisor. */
  datatype DivResult = Trap | Quotient(quot: U64, rem: U64)

  /** C's shift of a word: digits pushed out at the top are lost. */
  function Shl32(x: U32, k: nat): U32
    requires k < 32
  {
    Shl(x, k) % WORD
  }

  function Shr32(x: U32, k: nat): U32
    requires k < 32
  {
    ShrAtMost(x, k);
    Shr(x, k)
  }

  lemma {:induction false} ShrAtMost(x: nat, k: nat)
    ensures Shr(x, k) <= x
  {
    if k > 0 { ShrAtMost(x / 2, k - 1); }
  }

  /** C's wrapping subtraction of double words. */
  function Sub64(x: U64, y: U64): U64 { (x - y) % DWORD }

  /** `x >> 63` on the signed reading of x: all ones for a negative one, else zero. */
  function SignMask(x: U64): U64 { if x >= HALF then DWORD - 1 else 0 }

  // ---------------------------------------------------------------- shifting pairs of words

  /** The digits of a word of size w that a left shift by k keeps and loses. */
  lemma CutWord(x: nat, k: nat, w: nat, W: nat)
    requires k <= w && Pow2(w) == W && x < W
    ensures Shl(x, k) % W == Shl(Low(x, w - k), k)
    ensures Shl(x, k) == Shl(Shr(x, w - k), w) + Shl(Low(x, w - k), k)
    ensures Shl(Low(x, w - k), k) + Pow2(k) <= W
    ensures Shr(x, w - k) < Pow2(k)
  {
    ShrIsDiv(Shl(x, k), w);
    LowOfShl(x, k, w);
    Recompose(x, w - k);
    ShlAdd(Shl(Shr(x, w - k), w - k), Low(x, w - k), k);
    ShlShl(Shr(x, w - k), w - k, k);
    ShlBound(Low(x, w - k), w - k, k);
    ShrBound(x, w - k, w);
  }

  /** `hi >> k` and `(hi << (w - k)) | (lo >> k)`: a double word moved down k digits. */
  lemma PairRight(hi: nat, lo: nat, k: nat, w: nat, W: nat)
    requires 1 <= k < w && Pow2(w) == W && hi < W && lo < W
    ensures Or(Shl(hi, w - k) % W, Shr(lo, k)) < W
    ensures Shr(hi, k) * W + Or(Shl(hi, w - k) % W, Shr(lo, k)) == Shr(hi * W + lo, k)
    ensures Low(hi * W + lo, k) == Low(lo, k)
  {
    CutWord(hi, w - k, w, W);
    CutWord(lo, w - k, w, W);
    OrDisjoint(Low(hi, k), Shr(lo, k), w - k);
    ShlIsMul(Shr(hi, k), w);
    PairCut(hi, lo, k, w, W);
  }

  /** The digits of hi:lo above and below a cut inside lo. */
  lemma PairCut(hi: nat, lo: nat, k: nat, w: nat, W: nat)
    requires k <= w && Pow2(w) == W && lo < W
    ensures Shr(hi * W + lo, k) == Shl(hi, w - k) + Shr(lo, k)
    ensures Low(hi * W + lo, k) == Low(lo, k)
  {
    ShlIsMul(hi, w);
    Recompose(lo, k);
    ShlShl(hi, w - k, k);
    ShlAdd(Shl(hi, w - k), Shr(lo, k), k);
    CutUnique(Shl(hi, w - k) + Shr(lo, k), Low(lo, k), k);
  }

  /** `(hi << k) | (lo >> (w - k))` and `lo << k` hold what hi:lo has below the digit 2w - k. */
  lemma PairLeft(hi: nat, lo: nat, k: nat, w: nat, W: nat)
    requires 1 <= k < w && Pow2(w) == W && hi < W && lo < W
    ensures Or(Shl(hi, k) % W, Shr(lo, w - k)) < W
    ensures Or(Shl(hi, k) % W, Shr(lo, w - k)) * W + Shl(lo, k) % W == Shl(Low(hi, w - k), w + k) + Shl(lo, k)
  {
    CutWord(hi, k, w, W);
    CutWord(lo, k, w, W);
    OrDisjoint(Low(hi, w - k), Shr(lo, w - k), k);
    ShlShl(Low(hi, w - k), k, w);
    ShlIsMul(Shl(Low(hi, w - k), k), w);
    ShlIsMul(Shr(lo, w - k), w);
    Distribute(Shl(Low(hi, w - k), k), Shr(lo, w - k), W);
  }

  lemma Distribute(a: int, b: int, c: int)
    ensures (a + b) * c == a * c + b * c
  {
  }

  /** The digits of hi:lo above and below a cut inside hi. */
  lemma PairCutHigh(hi: nat, lo: nat, k: nat, w: nat, W: nat)
    requires Pow2(w) == W && lo < W
    ensures Shr(hi * W + lo, w + k) == Shr(hi, k)
    ensures Low(hi * W + lo, w + k) == Shl(Low(hi, k), w) + lo
  {
    var rest := Shl(Low(hi, k), w) + lo;
    assert hi * W + lo == Shl(Shr(hi, k), w + k) + rest by {
      ShlIsMul(hi, w);
      Recompose(hi, k);
      ShlAdd(Shl(Shr(hi, k), k), Low(hi, k), w);
      ShlShl(Shr(hi, k), k, w);
    }
    assert rest < Pow2(w + k) by {
      Recompose(hi, k);
      ShlBound(Low(hi, k), k, w);
    }
    CutUnique(Shr(hi, k), rest, w + k);
  }

  // ---------------------------------------------------------------- the loop

  /** q holds the k digits of n still to come, on top of the quotient digits shifted in. */
  ghost predicate HoldsDigits(n: nat, k: nat, q: nat, x: nat, w: nat) {
    k < w && q == Shl(Low(n, k), w - k) + x && x < Pow2(w - k)
  }

  /** y and r are quotient and remainder of the digits of n from k up. */
  ghost predicate Divided(n: nat, d: nat, k: nat, y: nat, r: nat) {
    Shr(n, k) == y * d + r && r < d
  }

  /** Loop state, for double words of w digits: `k` digits of n are still to come, the quotient
      so far is 2 * x + carry. A divisor with its top digit set is met only once, with a
      dividend as long. */
  ghost predicate Dividing(n: nat, d: nat, k: nat, q: nat, r: nat, carry: nat, x: nat, w: nat, half: nat) {
    && carry < 2
    && HoldsDigits(n, k, q, x, w)
    && 2 * x + carry < Pow2(w - k)
    && Divided(n, d, k, 2 * x + carry, r)
    && (d <= half || k == 0 || (k == 1 && n >= half && 2 * x + carry == 0))
  }

  lemma DigitStep(y: int, d: int, r: int, bit: int, m: int)
    requires m == y * d + r
    ensures 2 * m + bit == (2 * y) * d + (2 * r + bit)
    ensures 2 * m + bit == (2 * y + 1) * d + (2 * r + bit - d)
  {
    assert (2 * y) * d == 2 * (y * d);
    assert (2 * y + 1) * d == 2 * (y * d) + d;
  }

  lemma DivideDigits(n: nat, d: nat, k: nat, y: nat, r: nat, bit: nat, carry: nat)
    requires 1 <= k && bit == Shr(n, k - 1) % 2
    requires Divided(n, d, k, y, r)
    requires carry == if 2 * r + bit >= d then 1 else 0
    ensures Divided(n, d, k - 1, 2 * y + carry, if carry == 1 then 2 * r + bit - d else 2 * r + bit)
  {
    TopDigit(n, k);
    DigitStep(y, d, r, bit, Shr(n, k));
  }

  /** The top digit of q is the next one of n; below it room is made for `carry`. */
  lemma ShiftDigits(n: nat, k: nat, q: nat, x: nat, carry: nat, w: nat, W: nat) returns (rest: nat)
    requires w > 0 && Pow2(w - 1) == W
    requires 1 <= k && HoldsDigits(n, k, q, x, w)
    requires carry < 2 && 2 * x + carry < Pow2(w - k)
    ensures q == (Shr(n, k - 1) % 2) * W + rest && rest < W
    ensures HoldsDigits(n, k - 1, 2 * rest + carry, 2 * x + carry, w)
  {
    var bit, a := Shr(n, k - 1) % 2, Low(n, k - 1);
    rest := Shl(a, w - k) + x;
    TopDigit(n, k);
    ShlAdd(Shl(bit, k - 1), a, w - k);
    ShlShl(bit, k - 1, w - k);
    ShlIsMul(bit, w - 1);
    Recompose(n, k - 1);
    ShlBound(a, k - 1, w - k);
  }

  lemma ShiftOut(n: nat, k: nat, q: nat, x: nat, carry: nat, w: nat, W: nat) returns (rest: nat)
    requires w > 0 && Pow2(w - 1) == W
    requires 1 <= k && HoldsDigits(n, k, q, x, w)
    requires carry < 2 && 2 * x + carry < Pow2(w - k)
    ensures q == (if Shr(n, k - 1) % 2 == 1 then W + rest else rest) && rest < W
    ensures HoldsDigits(n, k - 1, 2 * rest + carry, 2 * x + carry, w)
  {
    rest := ShiftDigits(n, k, q, x, carry, w, W);
  }

  lemma SizeOfWord()
    ensures Pow2(32) == WORD
  {
    WordSizes();
  }

  lemma TopOfDoubleWord()
    ensures Pow2(63) == HALF
  {
    WordSizes();
  }

  /** One iteration, on the double words. */
  lemma DivideStep(n: nat, d: nat, k: nat, q: nat, r: nat, carry: nat, x: nat, w: nat, half: nat)
    returns (r': nat, carry': nat)
    requires w > 0 && half == Pow2(w - 1) && n < 2 * half
    requires Dividing(n, d, k, q, r, carry, x, w, half) && k > 0
    ensures q < 2 * half && r < half
    ensures r' == 2 * r + (if q < half then 0 else 1) && r' < 2 * half && r' < 2 * d && (d <= half || r' >= half)
    ensures carry' == if r' >= d then 1 else 0
    ensures Dividing(n, d, k - 1, 2 * (if q < half then q else q - half) + carry,
                     if carry' == 1 then r' - d else r', carry', 2 * x + carry, w, half)
  {
    var bit := Shr(n, k - 1) % 2;
    var rest := ShiftOut(n, k, q, x, carry, w, half);
    RemainderFits(n, d, k, 2 * x + carry, r, half);
    r' := 2 * r + bit;
    carry' := if r' >= d then 1 else 0;
    DivideDigits(n, d, k, 2 * x + carry, r, bit, carry');
    assert Pow2(w - (k - 1)) == 2 * Pow2(w - k);
  }

  /** The shifted remainder stays a double word, and close enough to d for the sign test. */
  lemma RemainderFits(n: nat, d: nat, k: nat, y: nat, r: nat, half: nat)
    requires k > 0 && Divided(n, d, k, y, r) && n < 2 * half
    requires d <= half || (k == 1 && n >= half && y == 0)
    ensures r < half
    ensures 2 * r + Shr(n, k - 1) % 2 < 2 * half && 2 * r + Shr(n, k - 1) % 2 < 2 * d
    ensures d <= half || 2 * r + Shr(n, k - 1) % 2 >= half
  {
    if d > half { DigitsOfOne(n); }
  }

  lemma DigitsOfOne(n: nat)
    ensures Shr(n, 1) == n / 2 && Shr(n, 0) == n
  {
    assert Shr(n, 1) == Shr(n / 2, 0);
  }

  /** The sign bit of d - r - 1 decides r >= d, as long as the two are close enough. */
  lemma SignTest(d: U64, r: U64)
    requires r < 2 * d
    requires d <= HALF || r >= HALF
    ensures SignMask(Sub64(Sub64(d, r), 1)) == if r >= d then DWORD - 1 else 0
  {
  }

  /** Masking with a sign mask keeps all of d or nothing. */
  lemma MaskAll(d: U64, s: U64)
    requires s == 0 || s == DWORD - 1
    ensures And(d, s) == if s == 0 then 0 else d
    ensures And(s, 1) == if s == 0 then 0 else 1
  {
    WordSizes();
    MaskOnes(d, 64);
    AndOne(s);
  }

  lemma MaskOnes(d: nat, w: nat)
    requires d < Pow2(w)
    ensures And(d, Pow2(w) - 1) == d
  {
    AndMask(d, w);
    LowSmall(d, w);
  }

  lemma AndOne(s: nat)
    ensures And(s, 1) == s % 2
  {
    assert And(s / 2, 0) == 0;
  }

  /** Or of an even number and a digit. */
  lemma OrDigit(x: nat, b: nat)
    requires b < 2
    ensures Or(2 * x, b) == 2 * x + b
  {
  }

  /** A double word shifted left by one digit, the top digit lost. */
  function Doubled(x: U64): U64 { if x < HALF then 2 * x else 2 * (x - HALF) }

  /** r:q = ((r:q) << 1) | carry, word by word. */
  method ShiftWords(rHigh: U32, rLow: U32, qHigh: U32, qLow: U32, carry: U32)
    returns (rHigh': U32, rLow': U32, qHigh': U32, qLow': U32)
    requires carry < 2
    ensures Join(rHigh', rLow') == Doubled(Join(rHigh, rLow)) + Join(qHigh, qLow) / HALF
    ensures Join(qHigh', qLow') == Doubled(Join(qHigh, qLow)) + carry
  {
    PairShift(rHigh, rLow, qHigh / TOP_BIT);
    PairShift(qHigh, qLow, carry);
    assert Join(qHigh, qLow) / HALF == qHigh / TOP_BIT;
    rHigh' := ShiftWord(rHigh, rLow / TOP_BIT);
    rLow' := ShiftWord(rLow, qHigh / TOP_BIT);
    qHigh' := ShiftWord(qHigh, qLow / TOP_BIT);
    qLow' := ShiftWord(qLow, carry);
  }

  lemma PairShift(hi: U32, lo: U32, b: nat)
    requires b < 2
    ensures ((2 * hi) % WORD + lo / TOP_BIT) * WORD + ((2 * lo) % WORD + b) == Doubled(Join(hi, lo)) + b
  {
    var h, l := hi / TOP_BIT, lo / TOP_BIT;
    assert (2 * hi) % WORD == 2 * hi - WORD * h && (2 * lo) % WORD == 2 * lo - WORD * l;
    assert 2 * Join(hi, lo) == DWORD * h + ((2 * hi - WORD * h + l) * WORD + (2 * lo - WORD * l));
  }

  /** `(x << 1) | b` on a word. */
  method ShiftWord(x: U32, b: U32) returns (x': U32)
    requires b < 2
    ensures x' == (2 * x) % WORD + b
  {
    OrDigit((2 * x) % WORD / 2, b);
    x' := Or((2 * x) % WORD, b);
  }

  /** The branch-free conditional subtraction. */
  method Subtract(d: U64, rHigh: U32, rLow: U32) returns (carry: U32, rHigh': U32, rLow': U32)
    requires Join(rHigh, rLow) < 2 * d
    requires d <= HALF || Join(rHigh, rLow) >= HALF
    ensures carry == if Join(rHigh, rLow) >= d then 1 else 0
    ensures Join(rHigh', rLow') == if carry == 1 then Join(rHigh, rLow) - d else Join(rHigh, rLow)
  {
    var r := Join(rHigh, rLow);
    SubtractMasked(d, r);
    var s := SignMask(Sub64(Sub64(d, r), 1));
    carry := And(s, 1);
    r := Sub64(r, And(d, s));
    rHigh', rLow' := HighWord(r), LowWord(r);
  }

  lemma SubtractMasked(d: U64, r: U64)
    requires r < 2 * d && (d <= HALF || r >= HALF)
    ensures var s := SignMask(Sub64(Sub64(d, r), 1));
      && And(s, 1) == (if r >= d then 1 else 0)
      && And(d, s) <= d && Sub64(r, And(d, s)) == if r >= d then r - d else r
  {
    SignTest(d, r);
    MaskAll(d, SignMask(Sub64(Sub64(d, r), 1)));
  }

  /** One iteration, in the operations on double words. */
  lemma DoubleWordStep(n: U64, d: U64, k: nat, q: U64, r: U64, carry: U32, x: nat) returns (r': nat, carry': nat)
    requires Dividing(n, d, k, q, r, carry, x, 64, HALF) && k > 0
    ensures r' == Doubled(r) + q / HALF && r' < 2 * d && (d <= HALF || r' >= HALF)
    ensures carry' == if r' >= d then 1 else 0
    ensures
      Dividing(n, d, k - 1, Doubled(q) + carry, if carry' == 1 then r' - d else r', carry', 2 * x + carry, 64, HALF)
  {
    TopOfDoubleWord();
    r', carry' := DivideStep(n, d, k, q, r, carry, x, 64, HALF);
  }

  /** One iteration of the loop, on the words. */
  method Iterate(ghost n: U64, d: U64, qHigh: U32, qLow: U32, rHigh: U32, rLow: U32, carry: U32,
                 ghost k: nat, ghost x: nat)
    returns (qHigh': U32, qLow': U32, rHigh': U32, rLow': U32, carry': U32)
    requires k > 0 && Dividing(n, d, k, Join(qHigh, qLow), Join(rHigh, rLow), carry, x, 64, HALF)
    ensures Dividing(n, d, k - 1, Join(qHigh', qLow'), Join(rHigh', rLow'), carry', 2 * x + carry, 64, HALF)
  {
    ghost var _, _ := DoubleWordStep(n, d, k, Join(qHigh, qLow), Join(rHigh, rLow), carry, x);
    rHigh', rLow', qHigh', qLow' := ShiftWords(rHigh, rLow, qHigh, qLow, carry);
    carry', rHigh', rLow' := Subtract(d, rHigh', rLow');
  }

  /** The shift-subtract loop, `sr0` digits long. */
  method ShiftSubtract(n: U64, d: U64, qHigh0: U32, qLow0: U32, rHigh0: U32, rLow0: U32, sr0: nat)
    returns (quot: U64, rem: U64)
    requires Dividing(n, d, sr0, Join(qHigh0, qLow0), Join(rHigh0, rLow0), 0, 0, 64, HALF)
    ensures quot * d + rem == n && rem < d
  {
    var qHigh: U32, qLow: U32, rHigh: U32, rLow: U32 := qHigh0, qLow0, rHigh0, rLow0;
    var carry: U32, sr := 0, sr0;
    ghost var x: nat := 0;
    while sr > 0
      invariant Dividing(n, d, sr, Join(qHigh, qLow), Join(rHigh, rLow), carry, x, 64, HALF)
    {
      ghost var x' := 2 * x + carry;
      qHigh, qLow, rHigh, rLow, carry := Iterate(n, d, qHigh, qLow, rHigh, rLow, carry, sr, x);
      x := x';
      sr := sr - 1;
    }
    FinalDigits(n, d, Join(qHigh, qLow), Join(rHigh, rLow), carry, x);
    quot := Doubled(Join(qHigh, qLow)) + carry;
    rem := Join(rHigh, rLow);
  }

  lemma FinalDigits(n: U64, d: U64, q: U64, r: U64, carry: U32, x: nat)
    requires Dividing(n, d, 0, q, r, carry, x, 64, HALF)
    ensures Doubled(q) + carry < DWORD
    ensures (Doubled(q) + carry) * d + r == n && r < d
  {
    TopOfDoubleWord();
    ShlIsMul(0, 64);
    assert q == x < HALF;
  }

  lemma StartDigits(n: U64, d: U64, q: U64, r: U64, sr: nat)
    requires 1 <= sr <= 63 && r == Shr(n, sr) && q == Shl(Low(n, sr), 64 - sr)
    requires r < d && (d <= HALF || (sr == 1 && n >= HALF))
    ensures Dividing(n, d, sr, q, r, 0, 0, 64, HALF)
  {
  }

  // ---------------------------------------------------------------- normalisation

  lemma ShortCut(hi: nat, lo: nat, sr: nat, w: nat, W: nat)
    requires 1 <= sr < w && Pow2(w) == W && hi < W && lo < W
    ensures (Shl(lo, w - sr) % W) * W == Shl(Low(hi * W + lo, sr), w + (w - sr))
  {
    CutWord(lo, w - sr, w, W);
    PairCut(hi, lo, sr, w, W);
    ShlShl(Low(lo, sr), w - sr, w);
    ShlIsMul(Shl(Low(lo, sr), w - sr), w);
  }

  lemma WordCut(hi: nat, lo: nat, w: nat, W: nat)
    requires Pow2(w) == W && hi < W && lo < W
    ensures Shr(hi * W + lo, w) == hi && Low(hi * W + lo, w) == lo && Shl(lo, w) == lo * W
  {
    ShlIsMul(hi, w);
    CutUnique(hi, lo, w);
    ShlIsMul(lo, w);
  }

  lemma LongRight(n: nat, hi: nat, lo: nat, j: nat, sr: nat, w: nat, W: nat)
    requires sr == w + j && Pow2(w) == W && lo < W && n == hi * W + lo
    ensures Shr(n, sr) == Shr(hi, j) && Low(n, sr) == Shl(Low(hi, j), w) + lo
  {
    PairCutHigh(hi, lo, j, w, W);
  }

  lemma LongLeft(hi: nat, lo: nat, j: nat, k: nat, w: nat, W: nat)
    requires j + k == w && 1 <= k < w && Pow2(w) == W && hi < W && lo < W
    ensures Or(Shl(hi, k) % W, Shr(lo, j)) < W
    ensures Or(Shl(hi, k) % W, Shr(lo, j)) * W + Shl(lo, k) % W == Shl(Shl(Low(hi, j), w) + lo, k)
  {
    PairLeft(hi, lo, k, w, W);
    MoveUp(Low(hi, j), lo, w, k);
  }

  lemma MoveUp(hi: nat, lo: nat, w: nat, k: nat)
    ensures Shl(Shl(hi, w) + lo, k) == Shl(hi, w + k) + Shl(lo, k)
  {
    ShlAdd(Shl(hi, w), lo, k);
    ShlShl(hi, w, k);
  }

  /** The loop length the source computes leaves a first remainder below the divisor. */
  lemma FirstRemainder(n: nat, d: nat, sr: nat, w: nat, half: nat)
    requires Pow2(w) == half && n < 2 * half && d > 0 && sr >= 1
    requires BitLength(n) - sr == BitLength(d) - 1
    ensures Shr(n, sr) < d
    ensures d <= half || (sr == 1 && n >= half)
  {
    BitLengthShift(n, sr);
    BitLengthAtMost(Shr(n, sr), BitLength(d) - 1);
    BitLengthAtMost(d, BitLength(d) - 1);
    BitLengthAtMost(d, w);
    BitLengthAtMost(n, w + 1);
    BitLengthAtMost(n, w);
  }

  lemma PairLength(hi: nat, lo: nat, w: nat, W: nat)
    requires Pow2(w) == W && lo < W && hi < W
    ensures hi > 0 ==> BitLength(hi * W + lo) == w + BitLength(hi)
    ensures BitLength(hi) <= w && BitLength(lo) <= w
  {
    WordCut(hi, lo, w, W);
    HighLength(hi * W + lo, hi, w);
    BitLengthAtMost(hi, w);
    BitLengthAtMost(lo, w);
  }

  lemma HighLength(n: nat, hi: nat, w: nat)
    requires Shr(n, w) == hi
    ensures hi > 0 ==> BitLength(n) == w + BitLength(hi)
  {
    BitLengthShift(n, w);
  }

  /** q and r set up for a loop of 1 to 31 digits. */
  method NormaliseShort(nHigh: U32, nLow: U32, sr: nat) returns (qHigh: U32, qLow: U32, rHigh: U32, rLow: U32)
    requires 1 <= sr <= 31
    ensures Join(rHigh, rLow) == Shr(Join(nHigh, nLow), sr)
    ensures Join(qHigh, qLow) == Shl(Low(Join(nHigh, nLow), sr), 64 - sr)
  {
    SizeOfWord();
    PairRight(nHigh, nLow, sr, 32, WORD);
    ShortCut(nHigh, nLow, sr, 32, WORD);
    qLow := 0;
    qHigh := Shl32(nLow, 32 - sr);
    rHigh := Shr32(nHigh, sr);
    rLow := Or(Shl32(nHigh, 32 - sr), Shr32(nLow, sr));
  }

  /** q and r set up for a loop of exactly one word. */
  method NormaliseWord(nHigh: U32, nLow: U32) returns (qHigh: U32, qLow: U32, rHigh: U32, rLow: U32)
    ensures Join(rHigh, rLow) == Shr(Join(nHigh, nLow), 32)
    ensures Join(qHigh, qLow) == Shl(Low(Join(nHigh, nLow), 32), 32)
  {
    SizeOfWord();
    WordCut(nHigh, nLow, 32, WORD);
    qLow, qHigh, rHigh, rLow := 0, nLow, 0, nHigh;
  }

  /** q and r set up for a loop of 33 to 63 digits. */
  method NormaliseLong(nHigh: U32, nLow: U32, sr: nat) returns (qHigh: U32, qLow: U32, rHigh: U32, rLow: U32)
    requires 33 <= sr <= 63
    ensures Join(rHigh, rLow) == Shr(Join(nHigh, nLow), sr)
    ensures Join(qHigh, qLow) == Shl(Low(Join(nHigh, nLow), sr), 64 - sr)
  {
    SizeOfWord();
    LongRight(Join(nHigh, nLow), nHigh, nLow, sr - 32, sr, 32, WORD);
    LongLeft(nHigh, nLow, sr - 32, 64 - sr, 32, WORD);
    qLow := Shl32(nLow, 64 - sr);
    qHigh := Or(Shl32(nHigh, 64 - sr), Shr32(nLow, sr - 32));
    rHigh := 0;
    rLow := Shr32(nHigh, sr - 32);
  }

  // ---------------------------------------------------------------- special cases

  lemma WordRemainder(nHigh: nat, dHigh: nat, W: nat)
    requires dHigh > 0
    ensures (nHigh / dHigh) * (dHigh * W) + (nHigh % dHigh) * W == nHigh * W
    ensures 0 <= nHigh % dHigh < dHigh
    ensures (nHigh % dHigh) * W + W <= dHigh * W
  {
    var q, r := nHigh / dHigh, nHigh % dHigh;
    assert nHigh == q * dHigh + r;
    Distribute(q * dHigh, r, W);
    assert (q * dHigh) * W == q * (dHigh * W);
    Distribute(r, 1, W);
    MulLeft(r + 1, dHigh, W);
  }

  lemma MulLeft(a: int, b: int, c: int)
    requires a <= b && c >= 0
    ensures a * c <= b * c
  {
  }

  /** Dividing by 2^t shifts out t digits. */
  lemma PowerQuotient(x: nat, t: nat)
    ensures x == Shr(x, t) * Pow2(t) + And(x, Pow2(t) - 1)
    ensures And(x, Pow2(t) - 1) < Pow2(t)
  {
    Recompose(x, t);
    ShlIsMul(Shr(x, t), t);
    AndMask(x, t);
  }

  /** a / b and a % b, as libgcc's `__udivmoddi4` computes them. */
  method UDivMod(a: U64, b: U64) returns (res: DivResult)
    ensures b == 0 <==> res.Trap?
    ensures b != 0 ==> res.quot * b + res.rem == a && res.rem < b
  {
    var nHigh, nLow, dHigh, dLow := HighWord(a), LowWord(a), HighWord(b), LowWord(b);
    if nHigh == 0 {
      if dHigh == 0 {
        return WordDivide(nLow, dLow);
      }
      return Quotient(0, nLow);
    }
    if dLow == 0 {
      if dHigh == 0 {
        return WordDivide(nHigh, dLow);
      }
      if nLow == 0 {
        WordRemainder(nHigh, dHigh, WORD);
        return Quotient(nHigh / dHigh, Join(nHigh % dHigh, 0));
      }
      if And(dHigh, dHigh - 1) == 0 {
        res := DivideByHighPower(nHigh, nLow, dHigh);
        return;
      }
      res := DivideLongByHigh(nHigh, nLow, dHigh);
    } else if dHigh == 0 {
      if And(dLow, dLow - 1) == 0 {
        res := DivideByLowPower(nHigh, nLow, dLow);
        return;
      }
      res := DivideLongByLow(nHigh, nLow, dLow);
    } else {
      res := DivideLongByLong(nHigh, nLow, dHigh, dLow);
    }
  }

  /** One division instruction on words. */
  function WordDivide(x: U32, y: U32): (r: DivResult)
    ensures y == 0 <==> r.Trap?
    ensures y != 0 ==> r.quot * y + r.rem == x && r.rem < y
  {
    if y == 0 then Trap
    else
      assert x == (x / y) * y + x % y;
      QuotientAtMost(x, y);
      Quotient(x / y, x % y)
  }

  lemma QuotientAtMost(x: nat, y: nat)
    requires y > 0
    ensures 0 <= x / y <= x
  {
    MulLeft(1, y, x / y);
  }

  /** K K / K 0 with a power of two above. */
  method DivideByHighPower(nHigh: U32, nLow: U32, dHigh: U32) returns (res: DivResult)
    requires dHigh != 0 && And(dHigh, dHigh - 1) == 0
    ensures res.Quotient? && res.quot * Join(dHigh, 0) + res.rem == Join(nHigh, nLow) && res.rem < Join(dHigh, 0)
  {
    SizeOfWord();
    PowerOfTwoTest(dHigh, 32);
    var t := Ctzsi2(dHigh);
    PowerQuotient(nHigh, t);
    HighScaled(nHigh, nLow, dHigh, Shr(nHigh, t), And(nHigh, dHigh - 1));
    res := Quotient(Shr32(nHigh, t), Join(And(nHigh, dHigh - 1), nLow));
  }

  /** A division of the high words, with the low word of the dividend left over. */
  lemma HighScaled(nHigh: U32, nLow: U32, dHigh: U32, q: nat, r: U32)
    requires nHigh == q * dHigh + r && r < dHigh
    ensures q * Join(dHigh, 0) + Join(r, nLow) == Join(nHigh, nLow) && Join(r, nLow) < Join(dHigh, 0)
  {
    ScaleUp(q, dHigh, r, WORD);
  }

  lemma ScaleUp(q: int, d: int, r: int, W: int)
    ensures q * (d * W) + r * W == (q * d + r) * W
  {
    Distribute(q * d, r, W);
  }

  /** K X / 0 K with a power of two below. */
  method DivideByLowPower(nHigh: U32, nLow: U32, dLow: U32) returns (res: DivResult)
    requires dLow != 0 && And(dLow, dLow - 1) == 0
    ensures res.Quotient? && res.quot * dLow + res.rem == Join(nHigh, nLow) && res.rem < dLow
  {
    SizeOfWord();
    PowerOfTwoTest(dLow, 32);
    var rem := And(nLow, dLow - 1);
    PowerQuotient(nLow, TrailingZeros(dLow, 32));
    if dLow == 1 {
      return Quotient(Join(nHigh, nLow), rem);
    }
    var sr := Ctzsi2(dLow);
    PowerOfPair(nHigh, nLow, sr);
    res := Quotient(Join(Shr32(nHigh, sr), Or(Shl32(nHigh, 32 - sr), Shr32(nLow, sr))), rem);
  }

  /** Dividing a double word by 2^t. */
  lemma PowerOfPair(nHigh: U32, nLow: U32, t: nat)
    requires 1 <= t <= 31
    ensures Or(Shl32(nHigh, 32 - t), Shr32(nLow, t)) < WORD
    ensures Join(Shr32(nHigh, t), Or(Shl32(nHigh, 32 - t), Shr32(nLow, t))) * Pow2(t) + And(nLow, Pow2(t) - 1) ==
            Join(nHigh, nLow)
  {
    PairQuotient(nHigh, nLow, t);
    PowerQuotient(Join(nHigh, nLow), t);
  }

  lemma PairQuotient(nHigh: U32, nLow: U32, t: nat)
    requires 1 <= t <= 31
    ensures Or(Shl32(nHigh, 32 - t), Shr32(nLow, t)) < WORD
    ensures Join(Shr32(nHigh, t), Or(Shl32(nHigh, 32 - t), Shr32(nLow, t))) == Shr(Join(nHigh, nLow), t)
    ensures And(nLow, Pow2(t) - 1) == And(Join(nHigh, nLow), Pow2(t) - 1)
  {
    PairHalves(nHigh, nLow, t, Join(nHigh, nLow));
    SameLow(nLow, Join(nHigh, nLow), t);
  }

  lemma PairHalves(nHigh: U32, nLow: U32, t: nat, n: nat)
    requires 1 <= t <= 31 && n == nHigh * WORD + nLow
    ensures Or(Shl32(nHigh, 32 - t), Shr32(nLow, t)) < WORD && Low(n, t) == Low(nLow, t)
    ensures Shr32(nHigh, t) * WORD + Or(Shl32(nHigh, 32 - t), Shr32(nLow, t)) == Shr(n, t)
  {
    SizeOfWord();
    PairRight(nHigh, nLow, t, 32, WORD);
  }

  lemma SameLow(x: nat, y: nat, t: nat)
    requires Low(x, t) == Low(y, t)
    ensures And(x, Pow2(t) - 1) == And(y, Pow2(t) - 1)
  {
    AndMask(x, t);
    AndMask(y, t);
  }

  /** K K / K 0. */
  method DivideLongByHigh(nHigh: U32, nLow: U32, dHigh: U32) returns (res: DivResult)
    requires nHigh != 0 && dHigh != 0 && And(dHigh, dHigh - 1) != 0
    ensures res.Quotient? && res.quot * Join(dHigh, 0) + res.rem == Join(nHigh, nLow) && res.rem < Join(dHigh, 0)
  {
    var cd := Clzsi2(dHigh);
    var cn := Clzsi2(nHigh);
    WordLengths(nHigh, nLow);
    WordLengths(dHigh, 0);
    CountDifference(cd, cn);
    var sr: nat := Sub32(cd, cn);
    if sr > 30 {
      ShorterIsLess(nHigh, nLow, dHigh, 0);
      if BitLength(dHigh) == 1 { LengthOne(dHigh); }
      return Quotient(0, Join(nHigh, nLow));
    }
    sr := sr + 1;
    var qHigh, qLow, rHigh, rLow := NormaliseShort(nHigh, nLow, sr);
    res := Finish(nHigh, nLow, dHigh, 0, qHigh, qLow, rHigh, rLow, sr);
  }

  lemma WordLengths(hi: U32, lo: U32)
    ensures hi != 0 ==> BitLength(hi) >= 1 && BitLength(Join(hi, lo)) == 32 + BitLength(hi)
    ensures hi == 0 ==> Join(hi, lo) == lo
    ensures BitLength(hi) <= 32 && BitLength(lo) <= 32
  {
    SizeOfWord();
    PairLength(hi, lo, 32, WORD);
  }

  /** The unsigned difference of two zero counts wraps when it is negative. */
  lemma CountDifference(cd: U32, cn: U32)
    requires cd <= 65 && cn <= 32
    ensures Sub32(cd, cn) == if cd >= cn then cd - cn else WORD + cd - cn
  {
  }

  /** A word of length 1 is 1, a power of two. */
  lemma LengthOne(x: nat)
    requires BitLength(x) == 1
    ensures x == 1 && And(x, x - 1) == 0
  {
    assert BitLength(x / 2) == 0;
  }

  lemma ShorterIsLess(nHigh: U32, nLow: U32, dHigh: U32, dLow: U32)
    ensures BitLength(nHigh) < BitLength(dHigh) ==> Join(nHigh, nLow) < Join(dHigh, dLow)
  {
    BitLengthAtMost(nHigh, BitLength(nHigh));
    BitLengthAtMost(dHigh, BitLength(nHigh));
  }

  /** K X / 0 K. */
  method DivideLongByLow(nHigh: U32, nLow: U32, dLow: U32) returns (res: DivResult)
    requires nHigh != 0 && dLow != 0 && And(dLow, dLow - 1) != 0
    ensures res.Quotient? && res.quot * dLow + res.rem == Join(nHigh, nLow) && res.rem < dLow
  {
    var cd := Clzsi2(dLow);
    var cn := Clzsi2(nHigh);
    WordLengths(nHigh, nLow);
    WordLengths(0, dLow);
    LongerThanOne(nHigh, dLow);
    CountDifference(33 + cd, cn);
    var sr: nat := Sub32(33 + cd, cn);
    var qHigh: U32, qLow: U32, rHigh: U32, rLow: U32;
    if sr == 32 {
      qHigh, qLow, rHigh, rLow := NormaliseWord(nHigh, nLow);
    } else if sr < 32 {
      qHigh, qLow, rHigh, rLow := NormaliseShort(nHigh, nLow, sr);
    } else {
      qHigh, qLow, rHigh, rLow := NormaliseLong(nHigh, nLow, sr);
    }
    res := Finish(nHigh, nLow, 0, dLow, qHigh, qLow, rHigh, rLow, sr);
  }

  lemma LongerThanOne(nHigh: nat, dLow: nat)
    requires nHigh != 0 && dLow != 0 && And(dLow, dLow - 1) != 0
    ensures BitLength(nHigh) >= 1 && BitLength(dLow) >= 2
  {
    if BitLength(dLow) == 1 { LengthOne(dLow); }
  }

  /** K X / K K. */
  method DivideLongByLong(nHigh: U32, nLow: U32, dHigh: U32, dLow: U32) returns (res: DivResult)
    requires nHigh != 0 && dHigh != 0
    ensures res.Quotient? && res.quot * Join(dHigh, dLow) + res.rem == Join(nHigh, nLow) && res.rem < Join(dHigh, dLow)
  {
    var cd := Clzsi2(dHigh);
    var cn := Clzsi2(nHigh);
    WordLengths(nHigh, nLow);
    WordLengths(dHigh, dLow);
    CountDifference(cd, cn);
    var sr: nat := Sub32(cd, cn);
    if sr > 31 {
      ShorterIsLess(nHigh, nLow, dHigh, dLow);
      return Quotient(0, Join(nHigh, nLow));
    }
    sr := sr + 1;
    var qHigh: U32, qLow: U32, rHigh: U32, rLow: U32;
    if sr == 32 {
      qHigh, qLow, rHigh, rLow := NormaliseWord(nHigh, nLow);
    } else {
      qHigh, qLow, rHigh, rLow := NormaliseShort(nHigh, nLow, sr);
    }
    res := Finish(nHigh, nLow, dHigh, dLow, qHigh, qLow, rHigh, rLow, sr);
  }

  /** The loop, entered with the length that the leading zeros give. */
  method Finish(nHigh: U32, nLow: U32, dHigh: U32, dLow: U32, qHigh: U32, qLow: U32, rHigh: U32, rLow: U32, sr: nat)
    returns (res: DivResult)
    requires Join(dHigh, dLow) != 0 && 1 <= sr <= 63
    requires BitLength(Join(nHigh, nLow)) - sr == BitLength(Join(dHigh, dLow)) - 1
    requires Join(rHigh, rLow) == Shr(Join(nHigh, nLow), sr)
    requires Join(qHigh, qLow) == Shl(Low(Join(nHigh, nLow), sr), 64 - sr)
    ensures res.Quotient? && res.quot * Join(dHigh, dLow) + res.rem == Join(nHigh, nLow) && res.rem < Join(dHigh, dLow)
  {
    var n, d := Join(nHigh, nLow), Join(dHigh, dLow);
    TopOfDoubleWord();
    FirstRemainder(n, d, sr, 63, HALF);
    StartDigits(n, d, Join(qHigh, qLow), Join(rHigh, rLow), sr);
    var q, r := ShiftSubtract(n, d, qHigh, qLow, rHigh, rLow, sr);
    res := Quotient(q, r);
  }
}
