/**
 Signed division by an invariant divisor: libdivide's s32 and s64 dividers,
 branching and branch-free. Values are two's complement words of width w.
 */
module SignedDivision {
  import opened Bits
  import opened WideDivision
  import opened UnsignedDivision
  import opened Wrappers

  datatype SignedDivider = SignedDivider(magic: int, more: nat)

  const NEGATIVE_DIVISOR: nat := 0x80

  // ---------------------------------------------------------------- two's complement

  predicate Signed(w: nat, x: int)
    requires w > 0
  {
    var h: int := Pow2(w - 1);
    -h <= x < h
  }

  function ToUnsigned(w: nat, x: int): nat {
    x % Pow2(w)
  }

  function ToSigned(w: nat, u: nat): int
    requires w > 0
  {
    if u >= Pow2(w - 1) then u - Pow2(w) else u
  }

  lemma RoundTrip(w: nat, x: int)
    requires w > 0 && Signed(w, x)
    ensures ToUnsigned(w, x) == if x < 0 then x + Pow2(w) else x
    ensures ToSigned(w, ToUnsigned(w, x)) == x
    ensures ToUnsigned(w, x) < Pow2(w)
  {
    DivModUnique(x, Pow2(w), if x < 0 then -1 else 0, if x < 0 then x + Pow2(w) else x);
  }

  /** Wrapping a sum and reading it as signed is exact when the true sum fits. */
  lemma WrapSigned(w: nat, x: int, u: int)
    requires w > 0 && Signed(w, x) && (u == x || u == x + Modulus(w) || u == x - Modulus(w))
    ensures ToSigned(w, u % Pow2(w)) == x && 0 <= u % Pow2(w) < Pow2(w)
  {
    var N := Modulus(w);
    var r := if x < 0 then x + N else x;
    DivModUnique(u, N, if u == r then 0 else if u == r + N then 1 else if u == r - N then -1 else -2, r);
  }

  function Modulus(w: nat): int {
    Pow2(w)
  }

  function Abs(x: int): nat {
    if x < 0 then -x else x
  }

  /** Division that truncates toward zero, as C divides. */
  function TruncDiv(n: int, d: int): int
    requires d != 0
  {
    var q := Abs(n) / Abs(d);
    if (n < 0) == (d < 0) then q else -q
  }

  // ---------------------------------------------------------------- the more byte

  function MoreByte(shift: nat, add: bool, negative: bool): nat {
    shift + (if add then 0x40 else 0) + (if negative then 0x80 else 0)
  }

  lemma LowField(w: nat, more: nat)
    requires Width(w)
    ensures BitAnd(more, w - 1) == more % w
  {
    Pow2Values();
    hide Pow2;
    hide BitAnd;
    AndLow(more, if w == 32 then 5 else 6);
  }

  lemma MarkerField(more: nat, j: nat)
    ensures BitAnd(more, Pow2(j)) != 0 <==> (more / Pow2(j)) % 2 == 1
  {
    hide BitAnd;
    hide Pow2;
    AndBit(more, j);
  }

  lemma MoreFields(w: nat, shift: nat, add: bool, negative: bool)
    requires Width(w) && shift < w
    ensures BitAnd(MoreByte(shift, add, negative), w - 1) == shift
    ensures BitAnd(MoreByte(shift, add, negative), ADD_MARKER) != 0 <==> add
    ensures BitAnd(MoreByte(shift, add, negative), NEGATIVE_DIVISOR) != 0 <==> negative
  {
    var more := MoreByte(shift, add, negative);
    var a, n := if add then 1 else 0, if negative then 1 else 0;
    assert more == shift + 64 * a + 128 * n;
    hide MoreByte;
    hide BitAnd;
    LowField(w, more);
    MarkerField(more, 6);
    MarkerField(more, 7);
    Pow2Values();
    hide Pow2;
    ByteDigits(shift, a, n);
  }

  lemma ByteDigits(shift: nat, a: nat, n: nat)
    requires shift < 64 && a <= 1 && n <= 1
    ensures shift < 32 ==> (shift + 64 * a + 128 * n) % 32 == shift
    ensures (shift + 64 * a + 128 * n) % 64 == shift
    ensures ((shift + 64 * a + 128 * n) / 64) % 2 == a
    ensures ((shift + 64 * a + 128 * n) / 128) % 2 == n
  {
  }

  /** Or-ing the flags into the shift builds the byte. */
  lemma MoreBuilt(shift: nat)
    requires shift < 64
    ensures BitOr(shift, ADD_MARKER) == MoreByte(shift, true, false)
    ensures BitOr(shift, NEGATIVE_DIVISOR) == MoreByte(shift, false, true)
    ensures BitOr(MoreByte(shift, true, false), NEGATIVE_DIVISOR) == MoreByte(shift, true, true)
    ensures BitOr(shift, 0) == shift
  {
    Pow2Values();
    OrDisjoint(1, shift, 6);
    OrDisjoint(1, shift, 7);
    OrDisjoint(1, shift + 64, 7);
    OrZero(shift);
  }

  // ---------------------------------------------------------------- division

  /** High word of a signed product, arithmetic shift. */
  function MulHiS(w: nat, x: int, y: int): (h: int)
    requires Width(w) && Signed(w, x) && Signed(w, y)
    ensures h == (x * y) / Pow2(w)
  {
    Pow2Values();
    HalfWord();
    if w == 64 then MulHiS64(x, y) else (x * y) / B32
  }

  /** All ones when the divisor is negative, zero otherwise. */
  function SignMask(w: nat, more: nat): nat {
    if BitAnd(more, NEGATIVE_DIVISOR) != 0 then Pow2(w) - 1 else 0
  }

  /** (q ^ sign) - sign. */
  function NegateIf(w: nat, q: int, sign: nat): int
    requires w > 0
  {
    ToSigned(w, (BitXor(ToUnsigned(w, q), sign) - sign) % Pow2(w))
  }

  lemma NegateIfValue(w: nat, q: int, more: nat)
    requires w > 0 && Signed(w, q)
    requires BitAnd(more, NEGATIVE_DIVISOR) != 0 ==> Signed(w, -q)
    ensures NegateIf(w, q, SignMask(w, more)) == if BitAnd(more, NEGATIVE_DIVISOR) != 0 then -q else q
  {
    RoundTrip(w, q);
    var u := ToUnsigned(w, q);
    if BitAnd(more, NEGATIVE_DIVISOR) != 0 {
      XorOnes(u, w);
      WrapSigned(w, -q, 0 - (u as int));
    } else {
      XorZero(u);
      WrapSigned(w, q, u);
    }
  }

  /** Arithmetic shift right after adding 2^shift - bias to negative values:
      bias 1 truncates, bias 0 adds one to the floor. */
  function RoundShift(w: nat, q: int, shift: nat, bias: nat): int
    requires w > 0 && bias <= 1
  {
    ToSigned(w, (q + BitAnd(ToUnsigned(w, q / Pow2(w - 1)), Pow2(shift) - bias)) % Pow2(w)) / Pow2(shift)
  }

  /** The high product, plus or minus the numerator when the add marker is set. */
  function HighWithAdd(w: nat, den: SignedDivider, n: int): int
    requires Width(w) && Signed(w, n) && Signed(w, den.magic)
  {
    var hi := MulHiS(w, den.magic, n);
    if BitAnd(den.more, ADD_MARKER) != 0 then
      ToSigned(w, (hi + Addend(w, n, den.more)) % Pow2(w))
    else
      ToSigned(w, hi % Pow2(w))
  }

  /** (numer ^ sign) - sign: the numerator, negated for a negative divisor. */
  function Addend(w: nat, n: int, more: nat): int {
    BitXor(ToUnsigned(w, n), SignMask(w, more)) - SignMask(w, more)
  }

  /** libdivide_s32_do and libdivide_s64_do. */
  function SignedDo(w: nat, den: SignedDivider, n: int): int
    requires Width(w) && Signed(w, n) && Signed(w, den.magic)
  {
    var shift := BitAnd(den.more, w - 1);
    if den.magic == 0 then
      NegateIf(w, RoundShift(w, n, shift, 1), SignMask(w, den.more))
    else
      AddIfNegative(HighWithAdd(w, den, n) / Pow2(shift))
  }

  /** q += (q < 0). */
  function AddIfNegative(q: int): int {
    if q < 0 then q + 1 else q
  }

  /** mullhi(magic, numer) + numer. */
  function BranchfreeHigh(w: nat, magic: int, n: int): int
    requires Width(w) && Signed(w, n) && Signed(w, magic)
  {
    ToSigned(w, (MulHiS(w, magic, n) + n) % Pow2(w))
  }

  /** libdivide_s32_branchfree_do and libdivide_s64_branchfree_do. */
  function SignedBranchfreeDo(w: nat, den: SignedDivider, n: int): int
    requires Width(w) && Signed(w, n) && Signed(w, den.magic)
  {
    var shift := BitAnd(den.more, w - 1);
    var q := RoundShift(w, BranchfreeHigh(w, den.magic, n), shift, if den.magic == 0 then 1 else 0);
    NegateIf(w, q, SignMask(w, den.more))
  }

  // ---------------------------------------------------------------- what a divider must hold

  /** 2^(w+l-1) rounded up over a, with the small excess the short path needs. */
  ghost predicate ShortFactor(w: nat, a: nat, m: int)
    requires w > 0
  {
    var l := Log(a);
    l >= 1 && 0 < m < Pow2(w - 1) && 0 < m * a - Pow2(w) * Pow2(l - 1) < Pow2(l)
  }

  /** 2^(w+l) rounded up over a: needs all w bits, so it is negative as a signed word. */
  ghost predicate FullFactor(w: nat, a: nat, m: int)
    requires w > 0
  {
    var l := Log(a);
    Pow2(w - 1) < m < Pow2(w) && 0 < m * a - Pow2(w) * Pow2(l) <= a
  }

  /** A divider for d. In branching mode the magic factor carries the sign of d;
      the full factor is stored less 2^w. */
  ghost predicate SignedDividerFor(w: nat, d: int, branchfree: bool, den: SignedDivider)
    requires w > 0
  {
    var a, l := Abs(d), Log(Abs(d));
    var flip := d < 0 && !branchfree;
    && d != 0 && Signed(w, d) && Signed(w, den.magic)
    && (|| (den.magic == 0 && a == Pow2(l) && den.more == MoreByte(l, false, d < 0))
        || (l >= 1 && !branchfree && den.more == MoreByte(l - 1, false, d < 0)
            && ShortFactor(w, a, if flip then -den.magic else den.magic))
        || (den.more == MoreByte(l, true, d < 0)
            && FullFactor(w, a, if flip then Pow2(w) - den.magic else Pow2(w) + den.magic)))
  }

  // ---------------------------------------------------------------- exactness

  /** floor(m*n/x) plus one for negative n truncates n/a toward zero. */
  lemma SignedMagicFloor(x: nat, a: nat, m: nat, e: nat, n: int)
    requires x > 0 && a > 0 && m * a == x + e && 0 < e && Abs(n) * e < x
    ensures n >= 0 ==> (m * n) / x == n / a
    ensures n < 0 ==> (m * n) / x == -((-n) / a) - 1
  {
    if n >= 0 {
      MagicFloor(x, a, m, e, n);
    } else {
      MagicFloor(x, a, m, e, -n);
      NegativeFloor(x, a, m, e, -n);
    }
  }

  lemma NegativeFloor(x: int, a: int, m: int, e: int, n: int)
    requires a > 0 && x > 0 && n > 0 && m * a == x + e && 0 < e && (m * n) / x == n / a
    ensures (m * (-n)) / x == -(n / a) - 1
  {
    var q, y := n / a, m * n;
    var r := y % x;
    assert y == x * q + r;
    MulNegate(m, n);
    if r == 0 {
      NoExactMultiple(x, a, m, e, n, q);
    }
    NegateQuotient(x, y, q, r);
  }

  lemma NegateQuotient(x: int, y: int, q: int, r: int)
    requires 0 < r < x && y == x * q + r
    ensures (-y) / x == -q - 1
  {
    assert x * (-q - 1) == -(x * q) - x;
    DivModUnique(-y, x, -q - 1, x - r);
  }

  lemma NoExactMultiple(x: int, a: int, m: int, e: int, n: int, q: int)
    requires a > 0 && x > 0 && n > 0 && m * a == x + e && 0 < e && q == n / a
    ensures m * n != x * q
  {
    assert n == a * q + n % a;
    assert (m * n) * a == n * (x + e) == n * x + n * e;
    MulLe(e, 1, n);
    assert (x * q) * a == x * (a * q);
    MulLe(x, a * q, n);
  }

  /** What the two divide paths compute after the high multiply: p is the signed
      effective factor, q its product's high word. */
  lemma CorrectedShift(N: nat, P: nat, a: nat, m: int, e: int, n: int, p: int)
    requires N > 0 && P > 0 && a > 0 && m > 0 && m * a == N * P + e && 0 < e && Abs(n) * e < N * P
    requires p == m || p == -m
    ensures var s := if p == m then n else -n;
            var q := ((p * n) / N) / P;
            && q + (if q < 0 then 1 else 0) == (if s >= 0 then s / a else -((-s) / a))
            && (q < 0 <==> s < 0)
  {
    var s := if p == m then n else -n;
    MulNegate(m, n);
    assert p * n == m * s;
    DivDiv(m * s, N, P);
    SignedMagicFloor(N * P, a, m, e, s);
    if s >= 0 {
      QuotientNonNegative(s, a);
    } else {
      QuotientNonNegative(-s, a);
    }
  }

  lemma TruncSign(n: int, d: int)
    requires d != 0
    ensures var s := if d < 0 then -n else n;
            TruncDiv(n, d) == if s >= 0 then s / Abs(d) else -((-s) / Abs(d))
  {
    if n == 0 {
      DivModUnique(0, Abs(d), 0, 0);
    }
  }

  lemma ExcessBelow(H: nat, P: nat, n: int, e: nat)
    requires Abs(n) <= H && H > 0 && e < P
    ensures Abs(n) * e < H * P
  {
    MulLe(e, Abs(n), H);
    MulLe(H, e + 1, P);
  }

  /** n >> (w-1), used as a mask: all ones for negative n. */
  lemma SignFill(w: nat, q: int, y: nat)
    requires w > 0 && Signed(w, q) && y < Pow2(w)
    ensures BitAnd(ToUnsigned(w, q / Pow2(w - 1)), y) == if q < 0 then y else 0
  {
    var h := Pow2(w - 1);
    if q < 0 {
      DivModUnique(q, h, -1, q + h);
      DivModUnique(-1, Pow2(w), -1, Pow2(w) - 1);
      AndOnes(w, y);
    } else {
      DivModUnique(q, h, 0, q);
      DivModUnique(0, Pow2(w), 0, 0);
    }
  }

  lemma ProductHighRange(H: int, N: int, p: int, n: int)
    requires H > 0 && N == 2 * H && -N < p < N && -H <= n <= H
    ensures -H <= (p * n) / N < H
  {
    AbsBound(p, n, N - 1, H);
    var y, q := p * n, (p * n) / N;
    assert y == N * q + y % N;
    assert (N - 1) * H == N * H - H;
    if q >= H {
      MulLe(N, H, q);
    }
    if q < -H {
      MulLe(N, q, -H - 1);
    }
  }

  /** The high product in signed range survives the trip through a word. */
  lemma HighWord(w: nat, p: int, n: int, u: int)
    requires w > 0 && Signed(w, n) && -Modulus(w) < p < Modulus(w)
    requires var q := (p * n) / Modulus(w); u == q || u == q + Modulus(w) || u == q - Modulus(w)
    ensures ToSigned(w, u % Pow2(w)) == (p * n) / Modulus(w) && u % Pow2(w) >= 0
    ensures Signed(w, (p * n) / Modulus(w))
  {
    ProductHighRange(Pow2(w - 1), Pow2(w), p, n);
    WrapSigned(w, (p * n) / Modulus(w), u);
  }

  /** Dropping 2^w from the factor and adding the numerator back is the same. */
  lemma FactorShift(N: int, p: int, n: int, j: int)
    requires N > 0
    ensures ((p + j * N) * n) / N == (p * n) / N + j * n
  {
    var q, r := (p * n) / N, (p * n) % N;
    assert p * n == N * q + r;
    assert (p + j * N) * n == N * (q + j * n) + r;
    DivModUnique((p + j * N) * n, N, q + j * n, r);
  }

  lemma SignedAddend(w: nat, n: int, more: nat)
    requires w > 0 && Signed(w, n)
    ensures var negative := BitAnd(more, NEGATIVE_DIVISOR) != 0;
            Addend(w, n, more)
              == (if negative then -n else n) + if n >= 0 then 0 else if negative then -Modulus(w) else Modulus(w)
  {
    RoundTrip(w, n);
    if BitAnd(more, NEGATIVE_DIVISOR) != 0 {
      XorOnes(ToUnsigned(w, n), w);
    } else {
      XorZero(ToUnsigned(w, n));
    }
  }

  lemma Halves(w: nat)
    requires w > 0
    ensures Pow2(w) == 2 * Pow2(w - 1)
  {
  }

  lemma RoundShiftValue(w: nat, l: nat, q: int, bias: nat)
    requires w > 0 && l < w && Signed(w, q) && bias <= 1
    ensures RoundShift(w, q, l, bias) == (if q < 0 then q + Pow2(l) - bias else q) / Pow2(l)
  {
    Pow2Order(l, w - 1);
    Halves(w);
    hide Pow2;
    SignFill(w, q, Pow2(l) - bias);
    var t := if q < 0 then q + Pow2(l) - bias else q;
    WrapSigned(w, t, t);
    hide RoundShift;
    hide BitAnd;
    hide ToUnsigned;
    hide ToSigned;
    RoundShiftFilled(w, q, l, bias, t - q);
  }

  lemma RoundShiftFilled(w: nat, q: int, l: nat, bias: nat, fill: int)
    requires w > 0 && bias <= 1 && ToSigned(w, (q + fill) % Pow2(w)) == q + fill
    requires fill == BitAnd(ToUnsigned(w, q / Pow2(w - 1)), Pow2(l) - bias)
    ensures RoundShift(w, q, l, bias) == (q + fill) / Pow2(l)
  {
    hide BitAnd;
    hide ToUnsigned;
    hide ToSigned;
    hide Pow2;
  }

  /** Truncating by a power of two. */
  lemma RoundTowardZero(p: nat, n: int)
    requires p > 0
    ensures n < 0 ==> (n + p - 1) / p == -((-n) / p)
  {
    if n < 0 {
      var q, r := (-n) / p, (-n) % p;
      assert -n == p * q + r;
      assert p * (-q) == -(p * q);
      DivModUnique(n + p - 1, p, -q, p - 1 - r);
    }
  }

  lemma FloorPlusOne(p: nat, q: int)
    requires p > 0
    ensures (q + p) / p == q / p + 1
    ensures q / p < 0 <==> q < 0
  {
    var k, r := q / p, q % p;
    assert q == p * k + r;
    assert p * (k + 1) == p * k + p;
    DivModUnique(q + p, p, k + 1, r);
    if q < 0 && k >= 0 {
      MulLe(p, 0, k);
    }
    if q >= 0 && k < 0 {
      MulLe(p, k, -1);
    }
  }

  lemma QuotientInRange(w: nat, n: int, a: nat)
    requires w > 0 && Signed(w, n) && a > 0
    ensures var q := if n >= 0 then n / a else -((-n) / a);
            Signed(w, q) && (Signed(w, -q) || (n == -Modulus(w - 1) && a == 1))
  {
    hide Pow2;
    var k := Abs(n);
    var q, r := k / a, k % a;
    QuotientNonNegative(k, a);
    assert k == a * q + r;
    MulLe(q, 1, a);
    MulComm(a, q);
    if a > 1 && n < 0 {
      MulLe(q, 2, a);
    }
  }

  /** The numerator with the sign of the divisor moved onto it. */
  function Moved(n: int, d: int): int {
    if d < 0 then -n else n
  }

  /** n / a truncated, for a positive divisor. */
  function Truncated(n: int, a: nat): int
    requires a > 0
  {
    if n >= 0 then n / a else -((-n) / a)
  }

  lemma PowerPath(w: nat, l: nat, negative: bool, more: nat, n: int)
    requires w > 0 && l < w && Signed(w, n)
    requires BitAnd(more, NEGATIVE_DIVISOR) != 0 <==> negative
    requires !(n == -Modulus(w - 1) && l == 0 && negative)
    ensures NegateIf(w, RoundShift(w, n, l, 1), SignMask(w, more))
         == (if negative then -Truncated(n, Pow2(l)) else Truncated(n, Pow2(l)))
  {
    RoundShiftValue(w, l, n, 1);
    RoundTowardZero(Pow2(l), n);
    QuotientInRange(w, n, Pow2(l));
    if l > 0 {
      Pow2Monotone(0, l);
    }
    NegateIfValue(w, Truncated(n, Pow2(l)), more);
  }

  lemma ShiftPath(w: nat, d: int, den: SignedDivider, n: int)
    requires Width(w) && d != 0 && Signed(w, d) && den.magic == 0
    requires Abs(d) == Pow2(Log(Abs(d))) && den.more == MoreByte(Log(Abs(d)), false, d < 0)
    requires Signed(w, n) && Signed(w, 0) && !(n == -Modulus(w - 1) && d == -1)
    ensures SignedDo(w, den, n) == TruncDiv(n, d)
    ensures SignedBranchfreeDo(w, den, n) == TruncDiv(n, d)
  {
    hide BitAnd;
    hide FloorLog2;
    var l := Log(Abs(d));
    LogInWord(w, d);
    MoreFields(w, l, false, d < 0);
    PowerDo(w, l, d < 0, den, n);
    TruncNegate(n, d);
  }

  lemma PowerDo(w: nat, l: nat, negative: bool, den: SignedDivider, n: int)
    requires Width(w) && l < w && Signed(w, n) && Signed(w, 0) && den.magic == 0
    requires BitAnd(den.more, w - 1) == l
    requires BitAnd(den.more, NEGATIVE_DIVISOR) != 0 <==> negative
    requires !(n == -Modulus(w - 1) && l == 0 && negative)
    ensures SignedDo(w, den, n) == (if negative then -Truncated(n, Pow2(l)) else Truncated(n, Pow2(l)))
    ensures SignedBranchfreeDo(w, den, n) == SignedDo(w, den, n)
  {
    PowerPath(w, l, negative, den.more, n);
    ZeroFactor(w, n);
  }

  lemma TruncNegate(n: int, d: int)
    requires d != 0
    ensures TruncDiv(n, d) == if d < 0 then -Truncated(n, Abs(d)) else Truncated(n, Abs(d))
  {
    if n == 0 {
      DivModUnique(0, Abs(d), 0, 0);
    }
  }

  lemma ZeroFactor(w: nat, n: int)
    requires Width(w) && Signed(w, n) && Signed(w, 0)
    ensures BranchfreeHigh(w, 0, n) == n
  {
    DivModUnique(0 * n, Pow2(w), 0, 0);
    RoundTrip(w, n);
  }

  lemma LogInWord(w: nat, d: int)
    requires w > 0 && d != 0 && Signed(w, d)
    ensures Log(Abs(d)) < w
    ensures Abs(d) != Pow2(Log(Abs(d))) ==> 1 <= Log(Abs(d)) && Log(Abs(d)) < w - 1
  {
    var l := Log(Abs(d));
    if l >= w {
      Pow2Order(w, l);
    }
    if l == w - 1 {
      assert Abs(d) == Pow2(w - 1);
    }
  }

  /** Multiply, keep the high word, shift and correct: truncated division. */
  lemma MultiplyShift(w: nat, s: nat, a: nat, m: int, e: int, bound: nat, n: int, p: int)
    requires w > 0 && Signed(w, n) && a > 0 && m > 0 && (p == m || p == -m)
    requires m * a == Pow2(w) * Pow2(s) + e && 0 < e < bound
    requires Pow2(w - 1) * bound <= Pow2(w) * Pow2(s)
    ensures AddIfNegative(((p * n) / Pow2(w)) / Pow2(s)) == Truncated(if p == m then n else -n, a)
  {
    ExcessBelow(Pow2(w - 1), bound, n, e);
    CorrectedShift(Pow2(w), Pow2(s), a, m, e, n, p);
  }

  lemma HalfScale(w: nat, s: nat)
    requires w > 0
    ensures Pow2(w - 1) * Pow2(s + 1) == Pow2(w) * Pow2(s)
  {
    assert Pow2(w - 1) * (2 * Pow2(s)) == (2 * Pow2(w - 1)) * Pow2(s);
  }

  lemma ShortPath(w: nat, d: int, l: nat, den: SignedDivider, n: int)
    requires Width(w) && d != 0 && Signed(w, d) && Signed(w, den.magic) && Signed(w, n)
    requires 1 <= l < w && l == Log(Abs(d)) && den.magic != 0
    requires den.more == MoreByte(l - 1, false, d < 0)
    requires ShortFactor(w, Abs(d), if d < 0 then -den.magic else den.magic)
    ensures SignedDo(w, den, n) == TruncDiv(n, d)
  {
    MoreFields(w, l - 1, false, d < 0);
    ShortHigh(w, Abs(d), l, den, n, d < 0);
    TruncSign(n, d);
  }

  lemma ShortHigh(w: nat, a: nat, l: nat, den: SignedDivider, n: int, flip: bool)
    requires Width(w) && a > 0 && Signed(w, den.magic) && Signed(w, n)
    requires 1 <= l && l == Log(a) && BitAnd(den.more, ADD_MARKER) == 0
    requires ShortFactor(w, a, if flip then -den.magic else den.magic)
    ensures AddIfNegative(HighWithAdd(w, den, n) / Pow2(l - 1)) == Truncated(if flip then -n else n, a)
  {
    var p := den.magic;
    var m := if flip then -p else p;
    HighWord(w, p, n, (p * n) / Pow2(w));
    HalfScale(w, l - 1);
    MultiplyShift(w, l - 1, a, m, m * a - Pow2(w) * Pow2(l - 1), Pow2(l), n, p);
  }

  lemma FullHigh(w: nat, a: nat, l: nat, m: int, n: int, p: int)
    requires w > 0 && a > 0 && Signed(w, n) && l == Log(a) && FullFactor(w, a, m) && (p == m || p == -m)
    ensures AddIfNegative(((p * n) / Pow2(w)) / Pow2(l)) == Truncated(if p == m then n else -n, a)
  {
    HalfScale(w, l);
    MultiplyShift(w, l, a, m, m * a - Pow2(w) * Pow2(l), 2 * Pow2(l), n, p);
  }

  /** The add marker undoes the 2^w dropped from the stored factor. */
  lemma AddedHigh(w: nat, den: SignedDivider, n: int, p: int)
    requires Width(w) && Signed(w, den.magic) && Signed(w, n) && -Modulus(w) < p < Modulus(w)
    requires BitAnd(den.more, ADD_MARKER) != 0
    requires p == if BitAnd(den.more, NEGATIVE_DIVISOR) != 0 then den.magic - Modulus(w) else den.magic + Modulus(w)
    ensures HighWithAdd(w, den, n) == (p * n) / Pow2(w)
  {
    hide Pow2;
    hide BitAnd;
    hide BitXor;
    SignedAddend(w, n, den.more);
    StoredHigh(w, den.magic, n, p);
    var u := MulHiS(w, den.magic, n) + Addend(w, n, den.more);
    HighWord(w, p, n, u);
  }

  lemma StoredHigh(w: nat, magic: int, n: int, p: int)
    requires Width(w) && Signed(w, magic) && Signed(w, n)
    ensures p == magic - Modulus(w) ==> MulHiS(w, magic, n) == (p * n) / Modulus(w) + n
    ensures p == magic + Modulus(w) ==> MulHiS(w, magic, n) == (p * n) / Modulus(w) - n
  {
    FactorShift(Modulus(w), p, n, 1);
    FactorShift(Modulus(w), p, n, -1);
  }

  lemma FullPath(w: nat, d: int, l: nat, den: SignedDivider, n: int)
    requires Width(w) && d != 0 && Signed(w, d) && Signed(w, den.magic) && Signed(w, n)
    requires l < w && l == Log(Abs(d)) && den.magic != 0 && den.more == MoreByte(l, true, d < 0)
    requires FullFactor(w, Abs(d), if d < 0 then Modulus(w) - den.magic else Modulus(w) + den.magic)
    ensures SignedDo(w, den, n) == TruncDiv(n, d)
  {
    MoreFields(w, l, true, d < 0);
    FullAdded(w, Abs(d), l, den, n, d < 0);
    TruncSign(n, d);
  }

  lemma FullAdded(w: nat, a: nat, l: nat, den: SignedDivider, n: int, negative: bool)
    requires Width(w) && a > 0 && Signed(w, den.magic) && Signed(w, n) && l == Log(a)
    requires BitAnd(den.more, ADD_MARKER) != 0
    requires BitAnd(den.more, NEGATIVE_DIVISOR) != 0 <==> negative
    requires FullFactor(w, a, if negative then Modulus(w) - den.magic else Modulus(w) + den.magic)
    ensures AddIfNegative(HighWithAdd(w, den, n) / Pow2(l)) == Truncated(if negative then -n else n, a)
  {
    var m := if negative then Modulus(w) - den.magic else Modulus(w) + den.magic;
    AddedHigh(w, den, n, if negative then -m else m);
    FullHigh(w, a, l, m, n, if negative then -m else m);
  }

  lemma BranchfreeHighValue(w: nat, magic: int, n: int, m: int)
    requires Width(w) && Signed(w, magic) && Signed(w, n) && m == Modulus(w) + magic && 0 < m < Modulus(w)
    ensures BranchfreeHigh(w, magic, n) == (m * n) / Modulus(w)
    ensures Signed(w, (m * n) / Modulus(w))
  {
    FactorShift(Modulus(w), m, n, -1);
    HighWord(w, m, n, (m * n) / Modulus(w));
  }

  lemma RoundFull(w: nat, l: nat, q: int)
    requires w > 0 && l < w && Signed(w, q)
    ensures RoundShift(w, q, l, 0) == AddIfNegative(q / Pow2(l))
  {
    RoundShiftValue(w, l, q, 0);
    FloorPlusOne(Pow2(l), q);
  }

  lemma BranchfreeNegate(w: nat, d: int, n: int, more: nat)
    requires w > 0 && Signed(w, n) && Abs(d) > 1
    requires BitAnd(more, NEGATIVE_DIVISOR) != 0 <==> d < 0
    ensures NegateIf(w, Truncated(n, Abs(d)), SignMask(w, more)) == TruncDiv(n, d)
  {
    QuotientInRange(w, n, Abs(d));
    NegateIfValue(w, Truncated(n, Abs(d)), more);
    TruncNegate(n, d);
  }

  /** Branch-free path with a full factor. */
  lemma BranchfreeFullPath(w: nat, d: int, l: nat, den: SignedDivider, n: int)
    requires Width(w) && d != 0 && Signed(w, d) && Signed(w, den.magic) && Signed(w, n)
    requires 1 <= l < w && l == Log(Abs(d)) && den.magic != 0 && den.more == MoreByte(l, true, d < 0)
    requires FullFactor(w, Abs(d), Modulus(w) + den.magic)
    ensures SignedBranchfreeDo(w, den, n) == TruncDiv(n, d)
  {
    var m := Modulus(w) + den.magic;
    MoreFields(w, l, true, d < 0);
    BranchfreeHighValue(w, den.magic, n, m);
    RoundFull(w, l, BranchfreeHigh(w, den.magic, n));
    FullHigh(w, Abs(d), l, m, n, m);
    Pow2Monotone(0, l);
    BranchfreeNegate(w, d, n, den.more);
  }

  /** The divider divides, truncating toward zero, for every numerator except the
      one case whose quotient has no two's complement representation. */
  lemma SignedDoIsDivision(w: nat, d: int, den: SignedDivider, n: int)
    requires Width(w) && SignedDividerFor(w, d, false, den) && Signed(w, n)
    requires !(n == -Modulus(w - 1) && d == -1)
    ensures SignedDo(w, den, n) == TruncDiv(n, d)
  {
    var l := Log(Abs(d));
    LogInWord(w, d);
    hide MoreByte;
    hide Pow2;
    hide ShortFactor;
    hide FullFactor;
    hide SignedDo;
    hide TruncDiv;
    hide FloorLog2;
    if den.magic == 0 {
      ZeroMagic(w, d, false, den);
      ShiftPath(w, d, den, n);
    } else if den.more == MoreByte(l, true, d < 0)
              && FullFactor(w, Abs(d), if d < 0 then Modulus(w) - den.magic else Modulus(w) + den.magic) {
      FullPath(w, d, l, den, n);
    } else {
      ShortPath(w, d, l, den, n);
    }
  }

  lemma SignedBranchfreeDoIsDivision(w: nat, d: int, den: SignedDivider, n: int)
    requires Width(w) && SignedDividerFor(w, d, true, den) && Signed(w, n)
    requires !(n == -Modulus(w - 1) && d == -1)
    ensures SignedBranchfreeDo(w, den, n) == TruncDiv(n, d)
  {
    LogInWord(w, d);
    if den.magic == 0 {
      ZeroMagic(w, d, true, den);
      ShiftPath(w, d, den, n);
    } else {
      FullNotOne(w, Abs(d), Modulus(w) + den.magic);
      BranchfreeFullPath(w, d, Log(Abs(d)), den, n);
    }
  }

  /** A zero factor is the mark of a power of two. */
  lemma ZeroMagic(w: nat, d: int, branchfree: bool, den: SignedDivider)
    requires w > 0 && SignedDividerFor(w, d, branchfree, den) && den.magic == 0
    ensures Abs(d) == Pow2(Log(Abs(d))) && den.more == MoreByte(Log(Abs(d)), false, d < 0)
  {
  }

  lemma FullNotOne(w: nat, a: nat, m: int)
    requires w > 0 && a > 0 && FullFactor(w, a, m)
    ensures a != Pow2(Log(a))
    ensures Log(a) >= 1
  {
    var p := Pow2(Log(a));
    if a == p {
      assert m * a - Pow2(w) * p == (m - Pow2(w)) * p;
      MulLe(p, m - Pow2(w), -1);
    }
  }

  // ---------------------------------------------------------------- generation

  lemma ShortFound(H: nat, h: nat, a: nat, m: nat, rem: nat)
    requires 2 * H * h == a * m + rem && rem < a && 2 * h < a <= H && a - rem < 2 * h
    ensures (m + 1) * a == 2 * H * h + (a - rem) && 0 < m + 1 < H
  {
    MulLe(H, 2 * h + 1, a);
    assert H * (2 * h + 1) == 2 * H * h + H;
    CancelLt(m + 1, H, a);
  }

  /** The generator's division results give a short or a full factor. */
  lemma ShortResult(w: nat, a: nat, l: nat, m: nat, rem: nat)
    requires w > 0 && 1 <= l && l == Log(a) && Pow2(l) < a <= Pow2(w - 1)
    requires Pow2(w) * Pow2(l - 1) == a * m + rem && rem < a && a - rem < Pow2(l)
    ensures ShortFactor(w, a, m + 1) && m + 1 < Pow2(w)
  {
    assert 2 * Pow2(w - 1) * Pow2(l - 1) == Pow2(w) * Pow2(l - 1);
    ShortFound(Pow2(w - 1), Pow2(l - 1), a, m, rem);
  }

  lemma FullResult(w: nat, a: nat, l: nat, m: nat, rem: nat)
    requires w > 0 && 1 <= l && l == Log(a) && Pow2(l) < a <= Pow2(w - 1)
    requires Pow2(w) * Pow2(l - 1) == a * m + rem && rem < a
    ensures FullFactor(w, a, Doubled(m, rem, a)) && Doubled(m, rem, a) < Pow2(w)
  {
    var x := Pow2(w) * Pow2(l - 1);
    DoubledExcess(x, a, m, rem);
    assert Pow2(w) * (2 * Pow2(l - 1)) == 2 * x;
    assert 2 * Pow2(w - 1) * Pow2(l) == Pow2(w) * Pow2(l);
    DoubledRange(Pow2(w - 1), Pow2(l), a, Doubled(m, rem, a));
  }

  /** Doubling m with its remainder, then adding one, in w-bit words; no carry out. */
  method DoubledWord(w: nat, a: nat, m: nat, rem: nat) returns (proposed: nat)
    requires w > 0 && rem < a < Pow2(w) && Doubled(m, rem, a) < Pow2(w)
    ensures proposed == Doubled(m, rem, a)
  {
    var N := Pow2(w);
    TwiceTest(N, a, rem);
    SmallMods(m, N, a, rem);
    proposed := (m + m) % N;
    var twiceRem := (rem + rem) % N;
    if twiceRem >= a || twiceRem < rem {
      proposed := (proposed + 1) % N;
    }
    proposed := (proposed + 1) % N;
  }

  lemma SmallMods(m: nat, N: nat, a: nat, rem: nat)
    requires Doubled(m, rem, a) < N
    ensures (m + m) % N == 2 * m && (2 * m + 1) % N == 2 * m + 1
    ensures 2 * rem >= a ==> (2 * m + 2) % N == 2 * m + 2
  {
    DivModUnique(2 * m, N, 0, 2 * m);
    DivModUnique(2 * m + 1, N, 0, 2 * m + 1);
    if 2 * rem >= a {
      DivModUnique(2 * m + 2, N, 0, 2 * m + 2);
    }
  }

  /** The only factor that can be short is the quotient plus one, and its excess is a - rem. */
  lemma OnlyShortFactor(w: nat, a: nat, q: nat, rem: nat)
    requires w > 0 && a > 0 && Log(a) >= 1 && Pow2(w) * Pow2(Log(a) - 1) == a * q + rem && rem < a
    ensures forall m: nat :: ShortFactor(w, a, m) ==> m == q + 1 && a - rem < Pow2(Log(a))
  {
    var p := Pow2(Log(a));
    var x := Pow2(w) * Pow2(Log(a) - 1);
    assert p <= a;
    assert forall m: nat :: ShortFactor(w, a, m) ==> 0 < m * a - x < p;
    hide *;
    forall m: nat | ShortFactor(w, a, m)
      ensures m == q + 1 && a - rem < p
    {
      OnlyNext(x, a, q, rem, m);
    }
  }

  lemma NoShortFactor(w: nat, a: nat)
    requires w > 0 && a > 0 && a == Pow2(Log(a))
    ensures forall m: nat :: !ShortFactor(w, a, m)
  {
    if Log(a) >= 1 {
      Pow2Add(w - 1, 1);
      var h := Pow2(Log(a) - 1);
      assert Pow2(w) == 2 * Pow2(w - 1) && a == 2 * h;
      assert Pow2(w) * h == a * Pow2(w - 1);
      OnlyShortFactor(w, a, Pow2(w - 1), 0);
    }
  }

  /** The factor for a magnitude that is not a power of two: short when allowed. */
  method SignedFactor(w: nat, a: nat, l: nat, branchfree: bool) returns (proposed: nat, full: bool)
    requires Width(w) && Pow2(l) < a <= Pow2(w - 1) && l == Log(a) && 1 <= l
    ensures !full ==> !branchfree && ShortFactor(w, a, proposed)
    ensures full ==> FullFactor(w, a, proposed)
    ensures !branchfree ==> forall m: nat :: ShortFactor(w, a, m) ==> !full && proposed == m
  {
    Pow2Monotone(w - 1, w);
    Pow2Order(l - 1, l);
    hide *;
    var m, rem := DivWide(w, Pow2(l - 1), a);
    OnlyShortFactor(w, a, m, rem);
    var e := a - rem;
    full := branchfree || e >= Pow2(l);
    if full {
      FullResult(w, a, l, m, rem);
      proposed := DoubledWord(w, a, m, rem);
    } else {
      ShortResult(w, a, l, m, rem);
      DivModUnique(m + 1, Pow2(w), 0, m + 1);
      proposed := (m + 1) % Pow2(w);
    }
  }

  /** libdivide_internal_s32_gen and libdivide_internal_s64_gen. */
  method SignedInternalGen(w: nat, d: int, branchfree: bool) returns (result: Option<SignedDivider>)
    requires Width(w) && Signed(w, d)
    ensures result.None? <==> d == 0
    ensures result.Some? ==> SignedDividerFor(w, d, branchfree, result.value)
    ensures result.Some? && !branchfree ==>
              forall m: nat :: ShortFactor(w, Abs(d), m) ==> result.value.magic == if d < 0 then 0 - m else m
  {
    if d == 0 {
      return None;
    }
    var absD := Magnitude(w, d);
    var l := FloorLog2(absD);
    LogInWord(w, d);
    PowerOfTwoTest(absD);
    MoreBuilt(l);
    if BitAnd(absD, absD - 1) == 0 {
      NoShortFactor(w, absD);
      return Some(SignedDivider(0, BitOr(l, if d < 0 then NEGATIVE_DIVISOR else 0)));
    }
    var proposed, full := SignedFactor(w, absD, l, branchfree);
    var den := Pack(w, d, l, branchfree, proposed, full);
    result := Some(den);
  }

  /** Flags, and the sign of the divisor moved onto the factor in branching mode. */
  method Pack(w: nat, d: int, l: nat, branchfree: bool, proposed: nat, full: bool) returns (den: SignedDivider)
    requires Width(w) && d != 0 && Signed(w, d) && l == Log(Abs(d)) && 1 <= l < w
    requires if full then FullFactor(w, Abs(d), proposed) else !branchfree && ShortFactor(w, Abs(d), proposed)
    ensures SignedDividerFor(w, d, branchfree, den)
    ensures !full ==> den.magic == if d < 0 then 0 - proposed else proposed
  {
    hide ShortFactor;
    hide FullFactor;
    hide FloorLog2;
    hide BitOr;
    hide Pow2;
    hide ToSigned;
    hide Signed;
    MoreBuilt(l);
    MoreBuilt(l - 1);
    FactorSigned(w, Abs(d), proposed);
    var more := if full then BitOr(l, ADD_MARKER) else l - 1;
    var magic := ToSigned(w, proposed);
    if d < 0 {
      more := BitOr(more, NEGATIVE_DIVISOR);
      if !branchfree {
        magic := -magic;
      }
    }
    den := SignedDivider(magic, more);
  }

  lemma FactorSigned(w: nat, a: nat, f: nat)
    requires w > 0
    ensures ShortFactor(w, a, f) ==> ToSigned(w, f) == f && Signed(w, f) && Signed(w, 0 - f as int)
    ensures FullFactor(w, a, f) ==> ToSigned(w, f) == f - Modulus(w)
    ensures FullFactor(w, a, f) ==> Signed(w, f - Modulus(w)) && Signed(w, Modulus(w) - f)
  {
  }

  /** The magnitude of a signed word, formed in unsigned arithmetic. */
  method Magnitude(w: nat, d: int) returns (a: nat)
    requires Width(w) && Signed(w, d)
    ensures a == Abs(d)
  {
    RoundTrip(w, d);
    var ud := ToUnsigned(w, d);
    if d < 0 {
      DivModUnique(-(ud as int), Pow2(w), -1, -d);
      a := (-(ud as int)) % Pow2(w);
    } else {
      a := ud;
    }
  }

  /** libdivide_s32_gen and libdivide_s64_gen; None stands for the aborting error. */
  method SignedGen(w: nat, d: int) returns (result: Option<SignedDivider>)
    requires Width(w) && Signed(w, d)
    ensures result.None? <==> d == 0
    ensures result.Some? ==> SignedDividerFor(w, d, false, result.value)
    ensures result.Some? ==> forall n: int | Signed(w, n) && !(n == -Modulus(w - 1) && d == -1) ::
                                SignedDo(w, result.value, n) == TruncDiv(n, d)
    ensures result.Some? ==>
              forall m: nat :: ShortFactor(w, Abs(d), m) ==> result.value.magic == if d < 0 then 0 - m else m
  {
    result := SignedInternalGen(w, d, false);
    if result.Some? {
      forall n: int | Signed(w, n) && !(n == -Modulus(w - 1) && d == -1)
        ensures SignedDo(w, result.value, n) == TruncDiv(n, d)
      {
        SignedDoIsDivision(w, d, result.value, n);
      }
    }
  }

  /** libdivide_s32_branchfree_gen and libdivide_s64_branchfree_gen. */
  method SignedBranchfreeGen(w: nat, d: int) returns (result: Option<SignedDivider>)
    requires Width(w) && Signed(w, d)
    ensures result.None? <==> d == 0
    ensures result.Some? ==> SignedDividerFor(w, d, true, result.value)
    ensures result.Some? ==> forall n: int | Signed(w, n) && !(n == -Modulus(w - 1) && d == -1) ::
                                SignedBranchfreeDo(w, result.value, n) == TruncDiv(n, d)
  {
    result := SignedInternalGen(w, d, true);
    if result.Some? {
      forall n: int | Signed(w, n) && !(n == -Modulus(w - 1) && d == -1)
        ensures SignedBranchfreeDo(w, result.value, n) == TruncDiv(n, d)
      {
        SignedBranchfreeDoIsDivision(w, d, result.value, n);
      }
    }
  }

  // ---------------------------------------------------------------- recovery

  /** libdivide_s32_recover and libdivide_s64_recover, for either kind of divider. */
  method SignedRecover(w: nat, den: SignedDivider, ghost d: int, ghost branchfree: bool) returns (r: int)
    requires Width(w) && SignedDividerFor(w, d, branchfree, den)
    ensures r == d
  {
    hide SignedDividerFor;
    hide BitAnd;
    hide ToUnsigned;
    hide FloorLog2;
    hide MoreByte;
    hide Pow2;
    var negative := BitAnd(den.more, NEGATIVE_DIVISOR) != 0;
    var shift := BitAnd(den.more, w - 1);
    var marked := BitAnd(den.more, ADD_MARKER) != 0;
    RecoverFields(w, d, branchfree, den);
    var a: nat;
    if den.magic == 0 {
      a := Pow2(shift);
    } else {
      var negated := if marked then den.magic > 0 else den.magic < 0;
      var m := ToUnsigned(w, if negated then -den.magic else den.magic);
      if marked {
        FullReadBack(w, d, branchfree, den, m);
      } else {
        ShortReadBack(w, d, den, m);
      }
      var q, ignored := DivWide(w, Pow2(shift), m);
      FactorQuotient(w, Abs(d), shift, m, q, ignored);
      a := q + 1;
    }
    r := if negative then -(a as int) else a;
  }

  lemma RecoverFields(w: nat, d: int, branchfree: bool, den: SignedDivider)
    requires Width(w) && SignedDividerFor(w, d, branchfree, den)
    ensures BitAnd(den.more, NEGATIVE_DIVISOR) != 0 <==> d < 0
    ensures den.magic == 0 ==> Pow2(BitAnd(den.more, w - 1)) == Abs(d)
    ensures den.magic != 0 && BitAnd(den.more, ADD_MARKER) != 0 ==>
              den.more == MoreByte(Log(Abs(d)), true, d < 0) && BitAnd(den.more, w - 1) == Log(Abs(d))
    ensures den.magic != 0 && BitAnd(den.more, ADD_MARKER) == 0 ==>
              !branchfree && Log(Abs(d)) >= 1 && den.more == MoreByte(Log(Abs(d)) - 1, false, d < 0)
              && BitAnd(den.more, w - 1) == Log(Abs(d)) - 1
  {
    hide BitAnd;
    hide FloorLog2;
    var l := Log(Abs(d));
    LogInWord(w, d);
    MoreFields(w, l, false, d < 0);
    MoreFields(w, l, true, d < 0);
    if l >= 1 {
      MoreFields(w, l - 1, false, d < 0);
    }
  }

  lemma FullReadBack(w: nat, d: int, branchfree: bool, den: SignedDivider, m: nat)
    requires Width(w) && SignedDividerFor(w, d, branchfree, den) && den.magic != 0
    requires den.more == MoreByte(Log(Abs(d)), true, d < 0)
    requires m == ToUnsigned(w, if den.magic > 0 then -den.magic else den.magic)
    ensures Pow2(Log(Abs(d))) < m < Pow2(w)
    ensures 0 < m * Abs(d) - Pow2(w) * Pow2(Log(Abs(d))) <= m
  {
    var flip := d < 0 && !branchfree;
    hide ShortFactor;
    hide FullFactor;
    hide Pow2;
    var f := if flip then Modulus(w) - den.magic else Modulus(w) + den.magic;
    assert FullFactor(w, Abs(d), f);
    FullUnsigned(w, Abs(d), f);
  }

  lemma FullUnsigned(w: nat, a: nat, f: int)
    requires w > 0 && 0 < a <= Pow2(w - 1) && FullFactor(w, a, f)
    ensures f < Modulus(w) && ToUnsigned(w, f - Modulus(w)) == f
    ensures Pow2(Log(a)) < f && 0 < f * a - Pow2(w) * Pow2(Log(a)) <= f
  {
    DivModUnique(f - Modulus(w), Pow2(w), -1, f);
  }

  lemma ShortReadBack(w: nat, d: int, den: SignedDivider, m: nat)
    requires Width(w) && SignedDividerFor(w, d, false, den) && den.magic != 0 && Log(Abs(d)) >= 1
    requires den.more == MoreByte(Log(Abs(d)) - 1, false, d < 0)
    requires m == ToUnsigned(w, if den.magic < 0 then -den.magic else den.magic)
    ensures Pow2(Log(Abs(d)) - 1) < m < Pow2(w)
    ensures 0 < m * Abs(d) - Pow2(w) * Pow2(Log(Abs(d)) - 1) <= m
  {
    var a, l := Abs(d), Log(Abs(d));
    hide ShortFactor;
    hide FloorLog2;
    var f := if d < 0 then -den.magic else den.magic;
    assert ShortFactor(w, a, f);
    LogInWord(w, d);
    ShortUnsigned(w, a, f);
  }

  lemma ShortUnsigned(w: nat, a: nat, f: int)
    requires w > 0 && 0 < a && ShortFactor(w, a, f) && (a != Pow2(Log(a)) ==> Log(a) < w - 1)
    ensures ToUnsigned(w, f) == f
    ensures Pow2(Log(a) - 1) < f < Pow2(w) && 0 < f * a - Pow2(w) * Pow2(Log(a) - 1) <= f
  {
    ShortNotPower(w, a, f);
    ShortSizes(w, Log(a));
    hide Pow2;
    RoundTrip(w, f);
    hide ToUnsigned;
    ShortLarge(Pow2(w), Pow2(Log(a) - 1), a, f);
  }

  lemma ShortSizes(w: nat, l: nat)
    requires 1 <= l < w - 1
    ensures Pow2(l) == 2 * Pow2(l - 1) && 8 * Pow2(l - 1) <= Pow2(w) == 2 * Pow2(w - 1)
  {
    Pow2Monotone(l, w - 1);
  }

  lemma ShortNotPower(w: nat, a: nat, f: int)
    requires w > 0 && a > 0 && ShortFactor(w, a, f)
    ensures a != Pow2(Log(a))
  {
    var p, h := Pow2(Log(a)), Pow2(Log(a) - 1);
    Halves(w);
    Halves(Log(a));
    hide Pow2;
    if a == p {
      PowerExcess(f, Pow2(w - 1), h);
    }
  }

  lemma PowerExcess(f: int, N: int, h: int)
    requires f < N && h > 0
    ensures f * (2 * h) - (2 * N) * h < 0
  {
    assert f * (2 * h) - (2 * N) * h == (f - N) * (2 * h);
    MulLe(2 * h, f - N, -1);
  }

  lemma ShortLarge(N: nat, h: nat, a: nat, m: nat)
    requires 0 < h && 8 * h <= N && a < 4 * h && 0 < m * a - N * h < 2 * h
    ensures h < m && m * a - N * h <= m
  {
    MulLe(m, a, 4 * h);
    assert m * (4 * h) == (4 * m) * h;
    CancelLt(N, 4 * m, h);
  }

  lemma FactorQuotient(w: nat, a: nat, shift: nat, m: nat, q: nat, r: nat)
    requires a > 0 && 0 < m * a - Pow2(w) * Pow2(shift) <= m
    requires Pow2(w) * Pow2(shift) == m * q + r && r < m
    ensures q == a - 1
  {
    RecoverQuotient(Pow2(w) * Pow2(shift), a, m);
    DivModUnique(Pow2(w) * Pow2(shift), m, q, r);
  }
}