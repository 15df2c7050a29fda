/** The signed wrappers of the 64-bit division, over two's complement. */
module SignedDivision {
  import opened Bits
  import opened BitScan
  import opened Division

  const MIN := -HALF

  type I64 = x: int | -HALF <= x < HALF witness 0

  datatype SignedResult = SignedTrap | Value(v: I64)

  /** The two's complement pattern of a signed double word, and back. */
  function Pattern(a: I64): U64 { if a < 0 then a + DWORD else a }

  function Signed(u: U64): I64 { if u >= HALF then u - DWORD else u }

  function Abs(a: int): nat { if a < 0 then -a else a }

  /** `(u ^ s) - s`: negation under a sign mask. */
  function NegateUnder(u: U64, s: U64): U64
    requires s == 0 || s == DWORD - 1
  {
    FlipAll(u, s);
    Sub64(Xor(u, s), s)
  }

  lemma FlipAll(u: U64, s: U64)
    requires s == 0 || s == DWORD - 1
    ensures Xor(u, s) == if s == 0 then u else DWORD - 1 - u
  {
    WordSizes();
    XorOnes(u, 64);
  }

  lemma NegateMeans(u: U64, s: U64)
    requires s == 0 || s == DWORD - 1
    ensures NegateUnder(u, s) == if s == 0 || u == 0 then u else DWORD - u
  {
    FlipAll(u, s);
  }

  /** The magnitude of a, as the wrappers compute it; 2^63 for the most negative number. */
  lemma Magnitude(a: I64)
    ensures SignMask(Pattern(a)) == if a < 0 then DWORD - 1 else 0
    ensures NegateUnder(Pattern(a), SignMask(Pattern(a))) == Abs(a)
  {
    NegateMeans(Pattern(a), SignMask(Pattern(a)));
  }

  /** Section 6.5.5 of ISO/IEC 9899:2011: the quotient drops the fraction, so the remainder
      is smaller than the divisor and has the sign of the dividend. */
  ghost predicate Truncates(a: int, b: int, q: int, r: int) {
    && a == q * b + r
    && Abs(r) < Abs(b)
    && (r < 0 ==> a < 0) && (r > 0 ==> a > 0)
  }

  /** There is at most one such pair. */
  lemma TruncatesUnique(a: int, b: int, q: int, r: int, q': int, r': int)
    requires Truncates(a, b, q, r) && Truncates(a, b, q', r')
    ensures q == q' && r == r'
  {
    assert (q - q') * b == r' - r;
    if q != q' { ProductAtLeast(q - q', b); }
  }

  lemma ProductAtLeast(k: int, b: int)
    requires k != 0
    ensures Abs(k * b) >= Abs(b)
  {
    if k > 0 && b >= 0 { MulAtLeastNat(k, b); }
    else if k > 0 { MulAtLeastNat(k, -b); assert k * b == -(k * -b); }
    else if b >= 0 { MulAtLeastNat(-k, b); assert k * b == -(-k * b); }
    else { MulAtLeastNat(-k, -b); assert k * b == -k * -b; }
  }

  lemma MulAtLeastNat(k: int, b: int)
    requires k >= 1 && b >= 0
    ensures k * b >= b
  {
    assert k * b == b + (k - 1) * b;
    assert (k - 1) * b >= 0;
  }

  /** Putting signs on the quotient and remainder of the magnitudes. */
  lemma SignedQuotient(a: int, b: int, q: int, r: int)
    requires b != 0 && q >= 0 && r >= 0 && q * Abs(b) + r == Abs(a) && r < Abs(b)
    ensures Truncates(a, b, if (a < 0) == (b < 0) then q else -q, if a < 0 then -r else r)
    ensures q <= Abs(a)
  {
    assert (-q) * (-b) == q * b && (-q) * b == -(q * b) && q * (-b) == -(q * b);
    MulLeft(1, Abs(b), q);
  }

  /** A quotient beyond the signed range arises from one pair of operands only. */
  lemma QuotientRange(a: I64, b: I64, q: nat, r: nat)
    requires b != 0 && q * Abs(b) + r == Abs(a) && r < Abs(b)
    ensures q <= HALF
    ensures q == HALF && (a < 0) == (b < 0) <==> a == MIN && b == -1
  {
    MulLeft(1, Abs(b), q);
    if Abs(b) >= 2 { MulLeft(2, Abs(b), q); }
  }

  method Divdi3(a: I64, b: I64) returns (res: SignedResult)
    ensures b == 0 <==> res.SignedTrap?
    ensures b != 0 && !(a == MIN && b == -1) ==> Truncates(a, b, res.v, a - res.v * b)
    ensures a == MIN && b == -1 ==> res.v == MIN
  {
    var sa, sb := SignMask(Pattern(a)), SignMask(Pattern(b));
    Magnitude(a);
    Magnitude(b);
    var u := UDivMod(NegateUnder(Pattern(a), sa), NegateUnder(Pattern(b), sb));
    if u.Trap? {
      return SignedTrap;
    }
    FlipAll(sa, sb);
    sa := Xor(sa, sb);
    NegateMeans(u.quot, sa);
    SignedQuotient(a, b, u.quot, u.rem);
    QuotientRange(a, b, u.quot, u.rem);
    res := Value(Signed(NegateUnder(u.quot, sa)));
  }

  method Moddi3(a: I64, b: I64) returns (res: SignedResult)
    ensures b == 0 <==> res.SignedTrap?
    ensures b != 0 ==> exists q :: Truncates(a, b, q, res.v)
  {
    var s := SignMask(Pattern(b));
    Magnitude(b);
    var b' := NegateUnder(Pattern(b), s);
    s := SignMask(Pattern(a));
    Magnitude(a);
    var a' := NegateUnder(Pattern(a), s);
    var u := UDivMod(a', b');
    if u.Trap? {
      return SignedTrap;
    }
    NegateMeans(u.rem, s);
    SignedQuotient(a, b, u.quot, u.rem);
    res := Value(Signed(NegateUnder(u.rem, s)));
  }

  /** Wrap-around of an integer into a signed double word. */
  function Wrap(x: int): I64 { Signed(x % DWORD) }

  method Divmoddi4(a: I64, b: I64) returns (res: SignedResult, rem: I64)
    ensures b == 0 <==> res.SignedTrap?
    ensures b != 0 && !(a == MIN && b == -1) ==> Truncates(a, b, res.v, rem)
    ensures a == MIN && b == -1 ==> res.v == MIN && rem == 0
  {
    rem := 0;
    res := Divdi3(a, b);
    if res.Value? {
      rem := Wrap(a - Wrap(res.v * b));
      WrapBack(a, res.v * b);
    }
  }

  /** Wrapping twice loses nothing when the true difference is in range. */
  lemma WrapBack(a: int, x: int)
    ensures -HALF <= a - x < HALF ==> Wrap(a - Wrap(x)) == a - x
  {
  }
}
