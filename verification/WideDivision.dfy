/**
 The portable wide arithmetic of libdivide: leading zeros, the high half of a
 product, 128-by-64 and 128-by-128 division. Every intermediate result is
 reduced modulo 2^64 as the C code reduces it.
 */
module WideDivision {
  import opened Bits

  const B32: nat := 0x1_0000_0000
  const B64: nat := 0x1_0000_0000_0000_0000

  type Word32 = x: nat | x < B32
  type Word64 = x: nat | x < B64

  function Add64(a: Word64, b: Word64): Word64 { (a + b) % B64 }
  function Sub64(a: Word64, b: Word64): Word64 { (a - b) % B64 }
  function Mul64(a: Word64, b: Word64): Word64 { (a * b) % B64 }

  // ---------------------------------------------------------------- leading zeros

  lemma AndTopField(val: nat, c: nat, b: nat)
    requires val < Pow2(b + c)
    ensures BitAnd(val, Field(c, b)) == 0 <==> val < Pow2(b)
  {
    AndField(val, c, b);
    Pow2Add(b, c);
    var s := Shr(val, b);
    ShrRange(val, b, c);
    DivModUnique(s, Pow2(c), 0, s);
    if val < Pow2(b) {
      DivModUnique(val, Pow2(b), 0, val);
    } else {
      MulAtLeast(Pow2(b), s);
    }
  }

  /** Doubling inside 32 bits drops the bit that is shifted out. */
  lemma FieldShiftLeft(c: nat, b: nat)
    requires 0 < c && b + c <= 32
    ensures (2 * Field(c, b)) % Pow2(32) == if b + c < 32 then Field(c, b + 1) else Field(c - 1, b + 1)
  {
    var x := 2 * Field(c, b);
    FieldDifference(c, b);
    if b + c < 32 {
      Pow2Monotone(b + c, 32);
      DivModUnique(x, Pow2(32), 0, x);
    } else {
      FieldDifference(c - 1, b + 1);
      Pow2Monotone(b, 32);
      assert 0 <= x - Pow2(32) < Pow2(32);
      DivModUnique(x, Pow2(32), 1, x - Pow2(32));
    }
  }

  lemma FieldShiftRight8(j: nat)
    requires j >= 8
    ensures Field(8, j) / 256 == Field(8, j - 8)
  {
    FieldDifference(8, j);
    FieldDifference(8, j - 8);
    Pow2Values();
    Pow2Add(j - 8, 8);
    Pow2Add(j, 8);
    assert Field(8, j) == 256 * Field(8, j - 8);
  }

  /** The byte mask after the search has moved past result - 8 zero bits. */
  ghost predicate ByteMask(hi: nat, c: nat, result: nat) {
    result <= 32 && hi == Field(c, 32 - result)
  }

  lemma FirstMask()
    ensures ByteMask(0xFF00_0000, 8, 8)
    ensures Pow2(32) == B32
  {
    FieldDifference(8, 24);
    Pow2Values();
    Pow2Add(8, 16);
    Pow2Add(8, 8);
  }

  lemma NextMask(hi: nat, result: nat)
    requires ByteMask(hi, 8, result) && result <= 24
    ensures ByteMask(hi / 256, 8, result + 8)
  {
    FieldShiftRight8(32 - result);
  }

  /** Bits below position top - 8 are the only ones the mask leaves out. */
  lemma MaskTest(val: nat, hi: nat, c: nat, result: nat)
    requires ByteMask(hi, c, result)
    requires val < Pow2(32 - result + c)
    ensures BitAnd(val, hi) == 0 <==> val < Pow2(32 - result)
  {
    AndTopField(val, c, 32 - result);
  }

  /** All bits above the mask are clear; the mask starts at a multiple of eight. */
  ghost predicate Scanning(val: nat, hi: nat, result: nat) {
    result % 8 == 0 && ByteMask(hi, 8, result) && 0 < val < Pow2(40 - result)
  }

  lemma ScanStep(val: nat, hi: nat, result: nat)
    requires Scanning(val, hi, result) && BitAnd(val, hi) == 0
    ensures result < 32 && Scanning(val, hi / 256, result + 8)
  {
    MaskTest(val, hi, 8, result);
    NextMask(hi, result);
  }

  /** First loop: the byte mask moves down to the first non-zero byte. */
  method FirstByte(val: nat) returns (result: nat, hi: nat)
    requires 0 < val < B32
    ensures 8 <= result <= 32 && Scanning(val, hi, result)
    ensures Pow2(32 - result) <= val
  {
    FirstMask();
    result, hi := 8, 0xFF00_0000;
    while BitAnd(val, hi) == 0
      invariant 8 <= result <= 32 && Scanning(val, hi, result)
      decreases 32 - result
    {
      ScanStep(val, hi, result);
      result, hi := result + 8, hi / 256;
    }
    MaskTest(val, hi, 8, result);
  }

  function MaskWidth(result: nat): nat {
    if result < 8 then result else 8
  }

  /** One step of the second loop: the mask moves up by one bit. */
  lemma UpMask(hi: nat, result: nat)
    requires 0 < result && ByteMask(hi, MaskWidth(result), result)
    ensures ByteMask((2 * hi) % B32, MaskWidth(result - 1), result - 1)
  {
    FieldShiftLeft(MaskWidth(result), 32 - result);
    FirstMask();
  }

  /** The mask covers every position from 32 - result up to the end of the byte
      found first, and val has no bit above that byte. */
  ghost predicate Climbing(val: nat, hi: nat, result: nat, top: nat) {
    && ByteMask(hi, MaskWidth(result), result)
    && val < Pow2(top) && top <= 32 - result + MaskWidth(result)
    && (Pow2(32 - result) <= val || (result < 32 && Pow2(31 - result) <= val))
  }

  lemma ClimbTest(val: nat, hi: nat, result: nat, top: nat)
    requires Climbing(val, hi, result, top)
    ensures BitAnd(val, hi) == 0 <==> val < Pow2(32 - result)
  {
    Pow2Order(top, 32 - result + MaskWidth(result));
    MaskTest(val, hi, MaskWidth(result), result);
  }

  lemma ClimbStep(val: nat, hi: nat, result: nat, top: nat)
    requires Climbing(val, hi, result, top) && val < B32 && BitAnd(val, hi) != 0
    requires top <= 32
    ensures 0 < result && Climbing(val, (2 * hi) % B32, result - 1, top)
  {
    ClimbTest(val, hi, result, top);
    FirstMask();
    UpMask(hi, result);
  }

  method CountLeadingZeros32(val: nat) returns (result: nat)
    requires val < B32
    ensures val == 0 ==> result == 32
    ensures val > 0 ==> result == 31 - FloorLog2(val)
  {
    if val == 0 {
      return 32;
    }
    var hi: nat;
    result, hi := FirstByte(val);
    ghost var top := 40 - result;
    while BitAnd(val, hi) != 0
      invariant Climbing(val, hi, result, top) && top <= 32
      decreases result
    {
      ClimbStep(val, hi, result, top);
      result, hi := result - 1, (2 * hi) % B32;
    }
    ClimbTest(val, hi, result, top);
    FloorLog2Unique(val, 31 - result);
  }

  lemma LogOfHigh(val: nat, hi: nat)
    requires hi == val / B32 && hi > 0
    ensures val > 0 && FloorLog2(val) == FloorLog2(hi) + 32
  {
    hide Pow2;
    hide FloorLog2;
    Pow2Values();
    var l := FloorLog2(hi);
    Pow2Add(l, 32);
    FloorLog2Unique(val, l + 32);
  }

  method CountLeadingZeros64(val: Word64) returns (result: int)
    ensures val == 0 ==> result == 64
    ensures val > 0 ==> result == 63 - FloorLog2(val)
  {
    Pow2Values();
    var hi := val / B32;
    var lo := BitAnd(val, 0xFFFF_FFFF);
    AndLow(val, 32);
    hide BitAnd;
    hide Pow2;
    hide FloorLog2;
    if hi != 0 {
      LogOfHigh(val, hi);
      result := CountLeadingZeros32(hi);
      return;
    }
    result := CountLeadingZeros32(lo);
    result := 32 + result;
  }

  // ---------------------------------------------------------------- 128 / 64

  /** q is the floor of n / d, without dividing. */
  ghost predicate IsQuotient(n: int, d: int, q: int) {
    q * d <= n < (q + 1) * d
  }

  /** An estimate q of a two-digit division with remainder rhat against the top
      divisor digit is too large exactly when the second digit says so. */
  lemma EstimateTest(un: int, u: int, vn1: int, vn0: int, q: int, rhat: int)
    requires un == q * vn1 + rhat
    ensures q * (vn1 * B32 + vn0) - (un * B32 + u) == q * vn0 - (B32 * rhat + u)
  {
    assert q * (vn1 * B32 + vn0) == (q * vn1) * B32 + q * vn0;
  }

  /** The estimate q is not too small, and rhat is what it leaves of un. */
  ghost predicate Estimate(un: int, u: int, vn1: int, vn0: int, q: int, rhat: int) {
    un == q * vn1 + rhat && un * B32 + u < (q + 1) * (vn1 * B32 + vn0)
  }

  lemma FirstEstimate(un: nat, u: nat, vn1: nat, vn0: nat)
    requires 0 < vn1 && vn0 < B32 && u < B32
    ensures 0 <= un / vn1 <= un
    ensures 0 <= un - (un / vn1) * vn1 < vn1
    ensures Estimate(un, u, vn1, vn0, un / vn1, un - (un / vn1) * vn1)
  {
    var q, r := un / vn1, un % vn1;
    QuotientNonNegative(un, vn1);
    assert un == q * vn1 + r;
    MulLe(q, 1, vn1);
    assert (q + 1) * (vn1 * B32 + vn0) == B32 * (q * vn1 + vn1) + (q + 1) * vn0;
    MulLe(q + 1, 0, vn0);
  }

  lemma NoOverflow(q: Word32, rhat: Word32, u: Word32, vn0: Word32)
    ensures Mul64(q, vn0) == q * vn0
    ensures Add64(Mul64(B32, rhat), u) == B32 * rhat + u
  {
    ProductBelow(q, vn0);
  }

  lemma ProductBelow(a: nat, b: nat)
    requires a < B32 && b < B32
    ensures 0 <= a * b <= (B32 - 1) * (B32 - 1)
  {
    MulLe(a, b, B32 - 1);
    MulLe(B32 - 1, a, B32 - 1);
  }

  /** The loop test of the digit correction, as the machine evaluates it. */
  predicate TooLarge(q: Word64, rhat: Word64, u: Word32, vn0: Word32) {
    q >= B32 || Mul64(q, vn0) > Add64(Mul64(B32, rhat), u)
  }

  /** The test never overflows and is exact: it holds just when q is too large. */
  lemma TooLargeExact(un: nat, u: Word32, vn1: nat, vn0: Word32, q: Word64, rhat: Word64)
    requires Estimate(un, u, vn1, vn0, q, rhat) && rhat < B32
    requires un < vn1 * B32 + vn0
    ensures TooLarge(q, rhat, u, vn0) <==> un * B32 + u < q * (vn1 * B32 + vn0)
  {
    var v := vn1 * B32 + vn0;
    if q >= B32 {
      MulLe(v, B32, q);
    } else {
      EstimateTest(un, u, vn1, vn0, q, rhat);
      NoOverflow(q, rhat, u, vn0);
    }
  }

  lemma LowerEstimate(un: int, u: int, vn1: int, vn0: int, q: int, rhat: int)
    requires un == q * vn1 + rhat
    requires un * B32 + u < q * (vn1 * B32 + vn0)
    ensures Estimate(un, u, vn1, vn0, q - 1, rhat + vn1)
  {
    assert (q - 1) * vn1 == q * vn1 - vn1;
  }

  /** Once the partial remainder reaches 2^32 the estimate is exact. */
  lemma BreakExact(un: nat, u: nat, vn1: nat, vn0: nat, q: nat, rhat: nat)
    requires vn1 > 0 && vn0 < B32
    requires un == q * vn1 + rhat && rhat >= B32
    requires un < vn1 * B32 + vn0
    ensures q < B32 && q * (vn1 * B32 + vn0) <= un * B32 + u
  {
    EstimateTest(un, u, vn1, vn0, q, rhat);
    if q >= B32 {
      MulLe(vn1, B32, q);
      assert false;
    }
    ProductBelow(q, vn0);
  }

  /** One digit of the long division: the estimate from the top divisor digit is
      corrected down until it is exact. */
  method DivDigit(un: Word64, u: Word32, vn1: Word32, vn0: Word32) returns (q: Word64)
    requires 0 < vn1
    requires un < vn1 * B32 + vn0
    ensures q < B32 && IsQuotient(un * B32 + u, vn1 * B32 + vn0, q)
  {
    FirstEstimate(un, u, vn1, vn0);
    q := un / vn1;
    var rhat: Word64 := un - q * vn1;
    while TooLarge(q, rhat, u, vn0)
      invariant rhat < B32 && Estimate(un, u, vn1, vn0, q, rhat)
      decreases q
    {
      TooLargeExact(un, u, vn1, vn0, q, rhat);
      LowerEstimate(un, u, vn1, vn0, q, rhat);
      if q == 0 {
        assert false;
      }
      q := q - 1;
      rhat := rhat + vn1;
      if rhat >= B32 {
        BreakExact(un, u, vn1, vn0, q, rhat);
        return;
      }
    }
    TooLargeExact(un, u, vn1, vn0, q, rhat);
  }

  // ---------------------------------------------------------------- 128-bit shifts

  /** The value of a pair of words. */
  function Pair(hi: Word64, lo: Word64): nat {
    hi * B64 + lo
  }

  lemma SplitPower(s: nat)
    requires s <= 64
    ensures Pow2(s) * Pow2(64 - s) == B64
  {
    Pow2Add(s, 64 - s);
    Pow2Values();
  }

  function Shl64(x: Word64, s: nat): Word64 {
    (x * Pow2(s)) % B64
  }

  lemma SplitShift(x: int, p: int, c: int, a: int, b: int)
    requires 0 < p && 0 < c && p * c == B64
    requires x == c * a + b && 0 <= b < c && 0 <= x < B64
    ensures x * p == a * B64 + b * p
    ensures 0 <= b * p < B64
    ensures 0 <= a < p
  {
    MulSwap(c, a, p);
    MulLe(p, b + 1, c);
    MulLe(p, 0, b);
    if a >= p {
      MulLe(c, p, a);
    }
    if a < 0 {
      MulLe(c, a, -1);
    }
  }

  lemma MulSwap(c: int, a: int, p: int)
    ensures (c * a) * p == a * (p * c)
  {
  }

  /** Shifting a word left by s keeps its low 64 - s bits and loses the rest. */
  lemma ShlSplit(x: Word64, s: nat)
    requires s <= 64
    ensures Shl64(x, s) == Low(x, 64 - s) * Pow2(s)
    ensures x * Pow2(s) == Shr(x, 64 - s) * B64 + Shl64(x, s)
    ensures Shr(x, 64 - s) < Pow2(s)
  {
    SplitPower(s);
    ShrLow(x, 64 - s);
    SplitShift(x, Pow2(s), Pow2(64 - s), Shr(x, 64 - s), Low(x, 64 - s));
    DivModUnique(x * Pow2(s), B64, Shr(x, 64 - s), Low(x, 64 - s) * Pow2(s));
  }

  lemma ShlExact(x: Word64, s: nat)
    requires x * Pow2(s) < B64
    ensures Shl64(x, s) == x * Pow2(s)
  {
    MulLe(x, 0, Pow2(s));
    DivModUnique(x * Pow2(s), B64, 0, x * Pow2(s));
  }

  /** Left shift of a 128-bit value held in two words; bits beyond the high word are lost. */
  method ShiftLeft128(hi: Word64, lo: Word64, s: nat) returns (h: Word64, l: Word64)
    requires 0 < s < 64
    ensures Pair(h, l) == (Pair(hi, lo) * Pow2(s)) % B128
    ensures hi * Pow2(s) < B64 ==> Pair(h, l) == Pair(hi, lo) * Pow2(s)
  {
    hide Pow2;
    ghost var a, kept, lost := Shr(lo, 64 - s), Low(hi, 64 - s), Shr(hi, 64 - s);
    ShlSplit(lo, s);
    ShlSplit(hi, s);
    SplitPower(s);
    ShrLow(hi, 64 - s);
    LeftShiftValue(kept, lo, Pow2(s), Pow2(64 - s), a, Shl64(lo, s));
    OrDisjoint(kept, a, s);
    h := BitOr(Shl64(hi, s), Shr(lo, 64 - s));
    l := Shl64(lo, s);
    LeftShiftLoses(hi, lo, Pow2(s), lost, kept, Pair(h, l));
  }

  lemma LeftShiftLoses(hi: nat, lo: Word64, p: nat, lost: nat, kept: nat, r: nat)
    requires p > 0 && hi * p == lost * B64 + kept * p && kept * p < B64
    requires r == (kept * B64 + lo) * p && r < B128
    ensures (hi * B64 + lo) * p == B128 * lost + r && r == ((hi * B64 + lo) * p) % B128
    ensures hi * p < B64 ==> lost == 0
  {
    assert (hi * B64 + lo) * p == (hi * p) * B64 + lo * p;
    assert (kept * B64 + lo) * p == (kept * p) * B64 + lo * p;
    assert (lost * B64) * B64 == B128 * lost;
    DivModUnique((hi * B64 + lo) * p, B128, lost, r);
  }

  lemma LeftShiftValue(hi: nat, lo: nat, p: nat, c: nat, a: nat, l: nat)
    requires p > 0 && p * c == B64
    requires lo * p == a * B64 + l && a < p && hi * p < B64
    ensures (hi * p + a) * B64 + l == (hi * B64 + lo) * p
    ensures hi * p + a < B64
  {
    if hi >= c {
      MulLe(p, c, hi);
    }
    MulLe(p, hi + 1, c);
    assert (hi * B64) * p == (hi * p) * B64;
  }

  /** Right shift of a 128-bit value held in two words. */
  method ShiftRight128(hi: Word64, lo: Word64, s: nat) returns (h: Word64, l: Word64)
    requires 0 < s < 64
    ensures Pair(h, l) == Shr(Pair(hi, lo), s)
  {
    ghost var a, b, d, e := Shr(hi, s), Low(hi, s), Shr(lo, s), Low(lo, s);
    ShrLow(hi, s);
    ShrLow(lo, s);
    SplitPower(s);
    ShlSplit(hi, 64 - s);
    RightShiftValue(Pow2(s), Pow2(64 - s), a, b, d, e);
    DivModUnique(Pair(hi, lo), Pow2(s), a * B64 + b * Pow2(64 - s) + d, e);
    OrDisjoint(b, d, 64 - s);
    l := BitOr(Shr(lo, s), Shl64(hi, 64 - s));
    h := Shr(hi, s);
  }

  lemma RightShiftValue(p: nat, c: nat, a: nat, b: nat, d: nat, e: nat)
    requires p > 0 && c > 0 && p * c == B64
    requires b < p && e < p && p * d + e < B64
    ensures (p * a + b) * B64 + (p * d + e) == p * (a * B64 + b * c + d) + e
    ensures d < c
    ensures 0 <= b * c + d < B64
  {
    assert p * (a * B64 + b * c + d) == (p * a) * B64 + b * (p * c) + p * d;
    if d >= c {
      MulLe(p, c, d);
    }
    MulLe(c, b + 1, p);
  }

  // ---------------------------------------------------------------- 128 / 64

  /** A wrapped difference is exact when the true difference fits a word. */
  lemma WrapDifference(a: nat, b: nat)
    requires 0 <= a - b < B64
    ensures Sub64(a % B64, b % B64) == a - b
  {
    DivModUnique(a % B64 - b % B64, B64, b / B64 - a / B64, a - b);
  }

  lemma WrapSum(a: nat, b: nat, c: Word64)
    ensures Add64((a * b) % B64, c) == (a * b + c) % B64
  {
    var t := a * b;
    DivModUnique((t % B64) + c, B64, (t + c) / B64 - t / B64, (t + c) % B64);
  }

  /** One step of the long division: quotient digit and the next partial
      remainder, computed with wrapping multiply and subtract. */
  method DivStep(un: Word64, u: Word32, v: Word64) returns (q: Word64, rest: Word64)
    requires un < v && B32 <= v
    ensures q < B32 && rest < v
    ensures un * B32 + u == q * v + rest
  {
    var vn1, vn0 := v / B32, v % B32;
    q := DivDigit(un, u, vn1, vn0);
    ghost var n := un * B32 + u;
    assert q * v <= n < (q + 1) * v;
    assert (q + 1) * v == q * v + v;
    WrapSum(un, B32, u);
    MulLe(q, 0, v);
    WrapDifference(n, q * v);
    rest := Sub64(Add64(Mul64(un, B32), u), Mul64(q, v));
  }

  /** Normalisation: dividend and divisor move left until the divisor's top bit is set. */
  lemma Normalized(u1: Word64, v: Word64, s: nat)
    requires u1 < v && s == 63 - FloorLog2(v)
    ensures v * Pow2(s) < B64 && u1 * Pow2(s) < v * Pow2(s)
    ensures B32 <= B64 / 2 <= v * Pow2(s)
  {
    var l := FloorLog2(v);
    Pow2Add(l, s);
    HalfWord();
    ScaleBounds(u1, v, Pow2(l), Pow2(s));
  }

  lemma ScaleBounds(u1: nat, v: nat, low: nat, p: nat)
    requires low * p == B64 / 2 && p > 0
    requires u1 < v && low <= v < 2 * low
    ensures v * p < B64 && u1 * p < v * p && B64 / 2 <= v * p
  {
    MulLe(p, low, v);
    MulLe(p, v + 1, 2 * low);
    MulLe(p, u1 + 1, v);
  }

  lemma HalfWord()
    ensures Pow2(63) == B64 / 2
  {
    Pow2Add(1, 63);
    Pow2Values();
    assert Pow2(1) == 2;
  }

  lemma WordLog(v: Word64)
    requires v > 0
    ensures FloorLog2(v) <= 63
  {
    if FloorLog2(v) >= 64 {
      Pow2Order(64, FloorLog2(v));
      Pow2Values();
    }
  }

  /** Scaling both sides by 2^s scales the remainder and keeps the quotient. */
  lemma Unscale(u: nat, v: nat, p: nat, q: nat, r: nat)
    requires p > 0 && v > 0 && u * p == q * (v * p) + r && r < v * p
    ensures u / v == q && u % v == r / p
  {
    var d := u - q * v;
    assert q * (v * p) == (q * v) * p;
    assert r == d * p;
    if d < 0 {
      MulLe(p, d, -1);
    }
    if d >= v {
      MulLe(p, v, d);
    }
    DivModUnique(u, v, q, d);
    DivModUnique(r, p, d, 0);
  }

  /** The digits of the scaled division make up the quotient; its remainder is scaled. */
  lemma Denormalize(u: nat, v: nat, p: nat, un64: Word64, un10: Word64, q1: nat, un21: nat, q0: nat, rest: nat)
    requires v > 0 && p > 0 && Pair(un64, un10) == u * p && rest < v * p
    requires un64 * B32 + un10 / B32 == q1 * (v * p) + un21
    requires un21 * B32 + un10 % B32 == q0 * (v * p) + rest
    ensures u / v == q1 * B32 + q0 && u % v == rest / p
  {
    CombineDigits(un64, un10, v * p, q1, un21, q0, rest);
    Unscale(u, v, p, q1 * B32 + q0, rest);
  }

  lemma JoinDigits(q1: Word64, q0: Word64)
    requires q1 < B32 && q0 < B32
    ensures Add64(Mul64(q1, B32), q0) == q1 * B32 + q0
  {
  }

  method Div128By64(u1: Word64, u0: Word64, v: Word64) returns (q: Word64, r: Word64)
    ensures u1 >= v ==> q == B64 - 1 && r == B64 - 1
    ensures u1 < v ==> q == Pair(u1, u0) / v && r == Pair(u1, u0) % v
  {
    hide FloorLog2;
    hide Pow2;
    hide Pair;
    hide Add64;
    hide Mul64;
    if u1 >= v {
      return B64 - 1, B64 - 1;
    }
    var s := CountLeadingZeros64(v);
    WordLog(v);
    var vn, un64, un10 := Normalize(u1, u0, v, s);
    ghost var p := Pow2(s);
    var q1, un21 := DivStep(un64, un10 / B32, vn);
    var q0, rest := DivStep(un21, un10 % B32, vn);
    Denormalize(Pair(u1, u0), v, p, un64, un10, q1, un21, q0, rest);
    JoinDigits(q1, q0);
    q := Add64(Mul64(q1, B32), q0);
    r := Shr(rest, s);
  }

  method Normalize(u1: Word64, u0: Word64, v: Word64, s: nat) returns (vn: Word64, un64: Word64, un10: Word64)
    requires u1 < v && s == 63 - FloorLog2(v)
    ensures vn == v * Pow2(s) && Pair(un64, un10) == Pair(u1, u0) * Pow2(s)
    ensures un64 < vn && B32 <= vn
  {
    Normalized(u1, v, s);
    vn, un64, un10 := v, u1, u0;
    if s > 0 {
      ShlExact(v, s);
      vn := Shl64(v, s);
      un64, un10 := ShiftLeft128(u1, u0, s);
    }
    HighBelow(u1, u0, v, Pow2(s), un64, un10);
  }

  lemma HighBelow(u1: nat, u0: Word64, v: nat, p: nat, h: nat, l: nat)
    requires u1 < v && p > 0
    requires h * B64 + l == (u1 * B64 + u0) * p
    ensures h < v * p
  {
    MulLe(p, u1 * B64 + u0 + 1, v * B64);
    assert (v * B64) * p == (v * p) * B64;
    if h >= v * p {
      MulLe(B64, v * p, h);
    }
  }

  lemma CombineDigits(un64: nat, un10: Word64, v: nat, q1: nat, un21: nat, q0: nat, rest: nat)
    requires un64 * B32 + un10 / B32 == q1 * v + un21
    requires un21 * B32 + un10 % B32 == q0 * v + rest
    ensures un64 * B64 + un10 == (q1 * B32 + q0) * v + rest
  {
    assert (q1 * B32 + q0) * v == (q1 * v) * B32 + q0 * v;
  }

  // ---------------------------------------------------------------- high products

  /** libdivide_mullhi_u64: the high word of a product from four half products. */
  function MulHiU64(x: Word64, y: Word64): (h: Word64)
    ensures h == (x * y) / B64
  {
    ProductSplit(x % B32, x / B32, y % B32, y / B32);
    MulHiDigits(x % B32, x / B32, y % B32, y / B32)
  }

  function MulHiDigits(x0: Word32, x1: Word32, y0: Word32, y1: Word32): (h: Word64)
    ensures h == (x1 * y1 * B64 + (x0 * y1 + x1 * y0) * B32 + x0 * y0) / B64
  {
    HalfProducts(x0, x1, y0, y1);
    CarrySum((x0 * y0) / B32, Mul64(x0, y1), Mul64(x1, y0), Mul64(x1, y1), x0 * y0)
  }

  /** The machine sum of the half products, with carries. */
  function CarrySum(low: Word32, p01: Word64, p10: Word64, p11: Word64, ghost p00: nat): (h: Word64)
    requires low == p00 / B32
    requires p01 <= (B32 - 1) * (B32 - 1) && p10 <= (B32 - 1) * (B32 - 1) && p11 <= (B32 - 1) * (B32 - 1)
    ensures h == (p11 * B64 + (p01 + p10) * B32 + p00) / B64
  {
    ProductHigh(p00, p01, p10, p11);
    CarryBounds(low, p01, p10, p11);
    var temp: Word64 := Add64(p10, low);
    var mid: Word64 := Add64(temp % B32, p01);
    Add64(Add64(p11, temp / B32), mid / B32)
  }

  lemma AddExact(a: Word64, b: Word64)
    requires a + b < B64
    ensures Add64(a, b) == a + b
  {
  }

  lemma CarryBounds(low: Word32, p01: Word64, p10: Word64, p11: Word64)
    requires p01 <= (B32 - 1) * (B32 - 1) && p10 <= (B32 - 1) * (B32 - 1) && p11 <= (B32 - 1) * (B32 - 1)
    ensures Add64(p10, low) == p10 + low
    ensures Add64((p10 + low) % B32, p01) == (p10 + low) % B32 + p01
    ensures Add64(Add64(p11, (p10 + low) / B32), ((p10 + low) % B32 + p01) / B32)
         == p11 + (p10 + low) / B32 + ((p10 + low) % B32 + p01) / B32
  {
    AddExact(p10, low);
    var c := (p10 + low) / B32;
    AddExact((p10 + low) % B32, p01);
    var e := ((p10 + low) % B32 + p01) / B32;
    assert c < B32 && e < B32;
    AddExact(p11, c);
    AddExact(p11 + c, e);
  }

  lemma HalfProducts(x0: Word32, x1: Word32, y0: Word32, y1: Word32)
    ensures 0 <= x0 * y0 <= (B32 - 1) * (B32 - 1)
    ensures 0 <= x0 * y1 <= (B32 - 1) * (B32 - 1)
    ensures 0 <= x1 * y0 <= (B32 - 1) * (B32 - 1)
    ensures 0 <= x1 * y1 <= (B32 - 1) * (B32 - 1)
    ensures (x0 * y0) / B32 < B32
    ensures Mul64(x0, y1) == x0 * y1 && Mul64(x1, y0) == x1 * y0 && Mul64(x1, y1) == x1 * y1
  {
    ProductBelow(x0, y0);
    ProductBelow(x0, y1);
    ProductBelow(x1, y0);
    ProductBelow(x1, y1);
  }

  lemma ProductSplit(x0: int, x1: int, y0: int, y1: int)
    ensures (x1 * B32 + x0) * (y1 * B32 + y0) == x1 * y1 * B64 + (x0 * y1 + x1 * y0) * B32 + x0 * y0
  {
  }

  /** Carries of the schoolbook sum; p01 and p10 may be signed. */
  lemma ProductHigh(p00: nat, p01: int, p10: int, p11: int)
    ensures (p11 * B64 + (p01 + p10) * B32 + p00) / B64
         == p11 + (p10 + p00 / B32) / B32 + ((p10 + p00 / B32) % B32 + p01) / B32
  {
  }

  /** A signed 64-bit value. */
  type Int64 = x: int | -0x8000_0000_0000_0000 <= x < 0x8000_0000_0000_0000

  /** libdivide_mullhi_s64: the high half digits are signed, shifts are arithmetic. */
  function MulHiS64(x: Int64, y: Int64): (h: Int64)
    ensures h == (x * y) / B64
  {
    var (x0, x1) := (x % B32, x / B32);
    var (y0, y1) := (y % B32, y / B32);
    HalfProductS(x1, y0);
    HalfProductS(y1, x0);
    ProductBelow(x0, y0);
    var t: Int64 := x1 * y0 + (x0 * y0) / B32;
    var w: Int64 := x0 * y1 + t % B32;
    ProductHigh(x0 * y0, x0 * y1, x1 * y0, x1 * y1);
    ProductSplit(x0, x1, y0, y1);
    SignedProductRange(x, y);
    x1 * y1 + t / B32 + w / B32
  }

  lemma HalfProductS(a: int, b: Word32)
    requires -0x8000_0000 <= a < 0x8000_0000
    ensures -0x8000_0000 * B32 <= a * b <= 0x7FFF_FFFF * (B32 - 1)
    ensures a * b == b * a
  {
    MulLe(b, -0x8000_0000, a);
    MulLe(b, a, 0x7FFF_FFFF);
  }

  lemma SignedProductRange(x: Int64, y: Int64)
    ensures -0x8000_0000_0000_0000 * 0x8000_0000_0000_0000 <= x * y <= 0x8000_0000_0000_0000 * 0x8000_0000_0000_0000
  {
    AbsBound(x, y, 0x8000_0000_0000_0000, 0x8000_0000_0000_0000);
  }

  // ---------------------------------------------------------------- 128 / 128

  const B128: nat := B64 * B64

  /** (q1 << n) >> 63 as a 128-bit value: the first estimate of the quotient. */
  lemma HalfEstimate(u: nat, v1: nat, q1: nat, m: nat, e: nat)
    requires v1 > 0 && m > 0
    requires IsQuotient(u / 2, v1, q1) && IsQuotient(q1, m, e)
    ensures IsQuotient(u, 2 * m * v1, e)
  {
    MulLe(2 * v1, e * m, q1);
    MulLe(2 * v1, q1 + 1, (e + 1) * m);
    assert (2 * v1) * (e * m) == e * (2 * m * v1);
    assert (2 * v1) * ((e + 1) * m) == (e + 1) * (2 * m * v1);
    assert (2 * v1) * q1 == 2 * (q1 * v1) && (2 * v1) * (q1 + 1) == 2 * ((q1 + 1) * v1);
  }

  /** Dividing by the truncated divisor 2*m*v1 instead of v overshoots by at most one. */
  lemma EstimateWithinOne(u: nat, v: nat, v1: nat, m: nat, e: nat, q: nat)
    requires u < B128 && m > 0 && B64 / 2 <= v1
    requires 2 * m * v1 <= v < 2 * m * v1 + 2 * m
    requires IsQuotient(u, 2 * m * v1, e) && IsQuotient(u, v, q)
    ensures q <= e <= q + 1 && e < B64
  {
    var t := 2 * m * v1;
    MulLe(2 * m, B64 / 2, v1);
    NotBelow(u, v, t, q, e);
    EstimateBound(u, t, m, e);
    ErrorBound(e, m, v, v - t);
    NotFarAbove(u, v, t, q, e);
  }

  lemma NotBelow(u: nat, v: nat, t: nat, q: nat, e: nat)
    requires q * v <= u < (e + 1) * t && t <= v
    ensures q <= e
  {
    MulLe(q, t, v);
    if q > e {
      MulLe(t, e + 1, q);
    }
  }

  lemma EstimateBound(u: nat, t: nat, m: nat, e: nat)
    requires e * t <= u < B128 && m * B64 <= t && m > 0
    ensures 0 <= e * m < B64 && e < B64
  {
    MulLe(e, m * B64, t);
    var em := e * m;
    assert e * (m * B64) == em * B64;
    MulLe(e, 1, m);
  }

  lemma ErrorBound(e: nat, m: nat, v: nat, d: nat)
    requires 0 <= e * m < B64 && e < B64 && m > 0 && d < 2 * m && m * B64 <= v
    ensures e * d <= v
  {
    if m == 1 {
      MulLe(e, d, 1);
    } else {
      MulLe(e, d, 2 * m);
      assert e * (2 * m) == 2 * (e * m);
      MulLe(B64, 2, m);
    }
  }

  lemma NotFarAbove(u: nat, v: nat, t: nat, q: nat, e: nat)
    requires e * t <= u < (q + 1) * v && e * (v - t) <= v
    ensures e <= q + 1
  {
    assert e * (v - t) == e * v - e * t;
    assert (e - 1) * v == e * v - v;
    if e - 1 >= q + 1 {
      MulLe(v, q + 1, e - 1);
    }
  }

  /** v1 is the top word of v << n, so it is v with its low bits cut off. */
  lemma TopWord(v: nat, n: nat, v1: nat, low: Word64)
    requires n <= 63 && v * Pow2(n) == v1 * B64 + low
    ensures 2 * Pow2(63 - n) * v1 <= v < 2 * Pow2(63 - n) * v1 + 2 * Pow2(63 - n)
  {
    SplitPower(n);
    assert 2 * Pow2(63 - n) == Pow2(64 - n);
    CutLow(v, Pow2(n), Pow2(64 - n), v1, low);
  }

  lemma CutLow(v: nat, p: nat, c: nat, v1: nat, low: nat)
    requires p > 0 && c > 0 && p * c == B64 && low < B64 && v * p == v1 * B64 + low
    ensures c * v1 <= v < c * v1 + c
  {
    MulSwap(c, v1, p);
    var d := v - c * v1;
    assert d * p == v * p - (c * v1) * p;
    if d < 0 {
      MulLe(p, d, -1);
    }
    if d >= c {
      MulLe(p, c, d);
    }
  }

  lemma ShiftedEstimate(q1: nat, n: nat)
    requires n <= 63
    ensures IsQuotient(q1, Pow2(63 - n), Shr(q1 * Pow2(n), 63))
  {
    var p, m, e := Pow2(n), Pow2(63 - n), Shr(q1 * Pow2(n), 63);
    Pow2Add(n, 63 - n);
    ShrLow(q1 * p, 63);
    Cancel(q1, p, m, e, Low(q1 * p, 63));
  }

  lemma Cancel(q1: nat, p: nat, m: nat, e: nat, low: nat)
    requires p > 0 && m > 0 && q1 * p == (p * m) * e + low && low < p * m
    ensures IsQuotient(q1, m, e)
  {
    assert (p * m) * e == (e * m) * p;
    assert (e + 1) * m == e * m + m;
    var d := q1 - e * m;
    assert d * p == low;
    if d < 0 {
      MulLe(p, d, -1);
    }
    if d >= m {
      MulLe(p, m, d);
    }
  }

  lemma PairRange(hi: Word64, lo: Word64)
    ensures Pair(hi, lo) < B128 && (hi > 0 ==> Pair(hi, lo) >= B64) && (hi == 0 ==> Pair(hi, lo) == lo)
  {
  }

  lemma HalfPair(u: nat, s1: Word64, s0: Word64)
    requires u < B128 && Pair(s1, s0) == Shr(u, 1)
    ensures Pair(s1, s0) == u / 2 && s1 < B64 / 2
  {
    assert Pow2(1) == 2;
  }

  /** The normalised division of u/2 by the top word of v, scaled back. */
  method EstimateQuotient(uHi: Word64, uLo: Word64, vHi: Word64, vLo: Word64) returns (hi: Word64, lo: Word64)
    requires vHi > 0
    ensures hi == 0
    ensures Pair(uHi, uLo) / Pair(vHi, vLo) <= lo <= Pair(uHi, uLo) / Pair(vHi, vLo) + 1
  {
    ghost var u, v := Pair(uHi, uLo), Pair(vHi, vLo);
    PairRange(uHi, uLo);
    PairRange(vHi, vLo);
    hide Pair;
    var n := CountLeadingZeros64(vHi);
    WordLog(vHi);
    var t1, t0 := TopShift(vHi, vLo, n);
    var s1, s0 := ShiftRight128(uHi, uLo, 1);
    HalfPair(u, s1, s0);
    var q1, ignored := Div128By64(s1, s0, t1);
    hi, lo := 0, q1;
    PairRange(0, q1);
    if n > 0 {
      assert 0 * Pow2(n) == 0;
      hi, lo := ShiftLeft128(hi, lo, n);
    }
    assert Pair(hi, lo) == q1 * Pow2(n);
    hi, lo := ShiftRight128(hi, lo, 63);
    ShiftedEstimate(q1, n);
    hide Pow2;
    QuotientEstimate(u, v, t1, t0, n, q1, Pair(hi, lo));
    PairRange(hi, lo);
  }

  /** The shifted quotient by the leading word of v is the quotient by v or one more. */
  lemma QuotientEstimate(u: nat, v: nat, t1: Word64, t0: Word64, n: nat, q1: nat, e: nat)
    requires n <= 63 && u < B128 && v > 0 && v * Pow2(n) == Pair(t1, t0) && t1 >= B64 / 2
    requires q1 == (u / 2) / t1 && IsQuotient(q1, Pow2(63 - n), e)
    ensures u / v <= e <= u / v + 1 && e < B64
  {
    hide IsQuotient;
    TopWord(v, n, t1, t0);
    var m := Pow2(63 - n);
    hide Pow2;
    DivIsQuotient(u / 2, t1);
    DivIsQuotient(u, v);
    HalfEstimate(u, t1, q1, m, e);
    EstimateWithinOne(u, v, t1, m, e, u / v);
  }

  lemma DivIsQuotient(n: nat, d: nat)
    requires d > 0
    ensures IsQuotient(n, d, n / d) && n / d >= 0
  {
    assert n == d * (n / d) + n % d;
    QuotientNonNegative(n, d);
  }

  method TopShift(vHi: Word64, vLo: Word64, n: nat) returns (h: Word64, l: Word64)
    requires vHi > 0 && n == 63 - FloorLog2(vHi)
    ensures Pair(h, l) == Pair(vHi, vLo) * Pow2(n) && h >= B64 / 2
  {
    var p := Pow2(n);
    Normalized(0, vHi, n);
    h, l := vHi, vLo;
    if n > 0 {
      h, l := ShiftLeft128(vHi, vLo, n);
      TopBitKept(vHi, vLo, p, h, l);
    }
  }

  lemma TopBitKept(vHi: nat, vLo: nat, p: nat, h: nat, l: Word64)
    requires h * B64 + l == (vHi * B64 + vLo) * p && vHi * p >= B64 / 2
    ensures h >= B64 / 2
  {
    var a := vHi * p;
    MulLe(vLo, 0, p);
    assert (vHi * B64 + vLo) * p == a * B64 + vLo * p;
  }

  /** Product of a word and a double word, kept modulo 2^128. */
  lemma WordTimesPair(q: Word64, vHi: Word64, vLo: Word64)
    requires q * Pair(vHi, vLo) < B128
    ensures Pair(Add64(Add64(Mul64(0, vLo), Mul64(q, vHi)), MulHiU64(q, vLo)), Mul64(q, vLo)) == q * Pair(vHi, vLo)
  {
    var a, b := q * vHi, q * vLo;
    assert q * Pair(vHi, vLo) == a * B64 + b;
    MulLe(q, 0, vHi);
    MulLe(q, 0, vLo);
    assert a < B64;
    assert b == (b / B64) * B64 + b % B64;
    assert a + b / B64 < B64;
    assert Mul64(0, vLo) == 0 && Mul64(q, vHi) == a;
    AddExact(0, a);
    AddExact(a, b / B64);
  }

  /** Subtraction of double words with borrow. */
  function SubPairHi(aHi: Word64, aLo: Word64, bHi: Word64, bLo: Word64): Word64 {
    Sub64(aHi, Add64(bHi, if aLo < bLo then 1 else 0))
  }

  lemma SubPair(aHi: Word64, aLo: Word64, bHi: Word64, bLo: Word64)
    requires Pair(bHi, bLo) <= Pair(aHi, aLo)
    ensures Pair(SubPairHi(aHi, aLo, bHi, bLo), Sub64(aLo, bLo)) == Pair(aHi, aLo) - Pair(bHi, bLo)
  {
  }

  /** u - q * v, where the product is formed modulo 2^128. */
  method SubtractProduct(uHi: Word64, uLo: Word64, vHi: Word64, vLo: Word64, q: Word64)
    returns (rHi: Word64, rLo: Word64)
    requires q * Pair(vHi, vLo) <= Pair(uHi, uLo)
    ensures Pair(rHi, rLo) == Pair(uHi, uLo) - q * Pair(vHi, vLo)
  {
    WordTimesPair(q, vHi, vLo);
    var pHi := Add64(Add64(Mul64(0, vLo), Mul64(q, vHi)), MulHiU64(q, vLo));
    var pLo := Mul64(q, vLo);
    SubPair(uHi, uLo, pHi, pLo);
    rHi, rLo := SubPairHi(uHi, uLo, pHi, pLo), Sub64(uLo, pLo);
  }

  /** libdivide_128_div_128_to_64, portable branch: exact whenever the quotient
      fits a word, which is when vHi is non-zero or uHi is below vLo. */
  method Div128By128(uHi: Word64, uLo: Word64, vHi: Word64, vLo: Word64) returns (q: Word64, rHi: Word64, rLo: Word64)
    ensures vHi == 0 && uHi >= vLo ==> q == B64 - 1 && rHi == 0 && rLo == B64 - 1
    ensures vHi != 0 || uHi < vLo ==>
              q == Pair(uHi, uLo) / Pair(vHi, vLo) && Pair(rHi, rLo) == Pair(uHi, uLo) % Pair(vHi, vLo)
  {
    hide FloorLog2;
    hide Pow2;
    if vHi == 0 {
      q, rLo := Div128By64(uHi, uLo, vLo);
      assert Pair(vHi, vLo) == vLo && Pair(0, rLo) == rLo;
      return q, 0, rLo;
    }
    var q0Hi, q0Lo := EstimateQuotient(uHi, uLo, vHi, vLo);
    ghost var u, v := Pair(uHi, uLo), Pair(vHi, vLo);
    DivIsQuotient(u, v);
    if q0Hi != 0 || q0Lo != 0 {
      q0Hi, q0Lo := Decrement(q0Hi, q0Lo);
    }
    assert q0Hi == 0 && q0Lo <= u / v <= q0Lo + 1;
    q, rHi, rLo := Correct(uHi, uLo, vHi, vLo, q0Lo);
  }

  lemma PairOrder(aHi: Word64, aLo: Word64, bHi: Word64, bLo: Word64)
    ensures Pair(aHi, aLo) >= Pair(bHi, bLo) <==> aHi > bHi || (aHi == bHi && aLo >= bLo)
  {
  }

  /** The remainder for a quotient that may be one too small, and its correction. */
  method Correct(uHi: Word64, uLo: Word64, vHi: Word64, vLo: Word64, q0: Word64)
    returns (q: Word64, rHi: Word64, rLo: Word64)
    requires vHi > 0 && q0 <= Pair(uHi, uLo) / Pair(vHi, vLo) <= q0 + 1 && Pair(uHi, uLo) / Pair(vHi, vLo) < B64
    ensures q == Pair(uHi, uLo) / Pair(vHi, vLo) && Pair(rHi, rLo) == Pair(uHi, uLo) % Pair(vHi, vLo)
  {
    ghost var u, v := Pair(uHi, uLo), Pair(vHi, vLo);
    QuotientBelow(u, v, q0);
    rHi, rLo := SubtractProduct(uHi, uLo, vHi, vLo, q0);
    CorrectOnce(u, v, q0, Pair(rHi, rLo));
    hide Pair;
    q, rHi, rLo := TakeOff(rHi, rLo, vHi, vLo, q0);
  }

  /** A remainder that is not below the divisor is lowered once. */
  method TakeOff(r1: Word64, r0: Word64, vHi: Word64, vLo: Word64, q0: Word64)
    returns (q: Word64, rHi: Word64, rLo: Word64)
    requires Pair(r1, r0) >= Pair(vHi, vLo) ==> q0 + 1 < B64
    ensures Pair(r1, r0) < Pair(vHi, vLo) ==> q == q0 && Pair(rHi, rLo) == Pair(r1, r0)
    ensures Pair(r1, r0) >= Pair(vHi, vLo) ==> q == q0 + 1 && Pair(rHi, rLo) == Pair(r1, r0) - Pair(vHi, vLo)
  {
    PairOrder(r1, r0, vHi, vLo);
    hide Pair;
    q, rHi, rLo := q0, r1, r0;
    if rHi > vHi || (rHi == vHi && rLo >= vLo) {
      SubPair(rHi, rLo, vHi, vLo);
      q := Add64(q, 1);
      rHi, rLo := SubPairHi(rHi, rLo, vHi, vLo), Sub64(rLo, vLo);
    }
  }

  lemma QuotientBelow(u: nat, v: nat, q: nat)
    requires v > 0 && q <= u / v
    ensures q * v <= u
  {
    DivIsQuotient(u, v);
    MulLe(v, q, u / v);
    MulComm(v, q);
    MulComm(v, u / v);
  }

  method Decrement(hi: Word64, lo: Word64) returns (h: Word64, l: Word64)
    requires Pair(hi, lo) > 0
    ensures Pair(h, l) == Pair(hi, lo) - 1
  {
    h := Sub64(hi, if lo == 0 then 1 else 0);
    l := Sub64(lo, 1);
  }

  lemma CorrectOnce(u: nat, v: nat, q: nat, r: nat)
    requires v > 0 && q <= u / v <= q + 1 && r == u - q * v
    ensures r < v ==> q == u / v && r == u % v
    ensures r >= v ==> q + 1 == u / v && r - v == u % v
  {
    DivIsQuotient(u, v);
    assert (q + 1) * v == q * v + v;
    if r < v {
      DivModUnique(u, v, q, r);
    } else {
      if u / v == q {
        assert false;
      }
      DivModUnique(u, v, q + 1, r - v);
    }
  }
}