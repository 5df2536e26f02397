/**
 Unsigned division by an invariant divisor: libdivide's u32 and u64 dividers,
 plain and branch-free, for a word width w of 32 or 64 bits.
 */
module UnsignedDivision {
  import opened Bits
  import opened WideDivision
  import opened Wrappers

  /** The packed divider: a magic factor, and a byte holding shift and flags. */
  datatype Divider = Divider(magic: nat, more: nat)

  const ADD_MARKER: nat := 0x40

  predicate Width(w: nat) {
    w == 32 || w == 64
  }

  // ---------------------------------------------------------------- arithmetic

  lemma MagicProduct(x: int, d: int, m: int, e: int, n: int)
    requires m * d == x + e
    ensures (m * n) * d == n * x + n * e
  {
    assert (m * n) * d == n * (m * d);
  }

  lemma Stretch(x: int, d: int, q: int)
    ensures x * (d * q) == (q * x) * d && x * (d * q + d) == (q * x + x) * d
  {
  }

  /** If m/x slightly exceeds 1/d, multiplying by m and dividing by x divides by d. */
  lemma MagicFloor(x: nat, d: nat, m: nat, e: nat, n: nat)
    requires d > 0 && m * d == x + e && n * e < x
    ensures (m * n) / x == n / d
  {
    var q, r := n / d, n % d;
    QuotientNonNegative(n, d);
    assert n == d * q + r;
    var y := m * n;
    MagicProduct(x, d, m, e, n);
    MulLe(x, d * q, n);
    MulLe(x, n + 1, d * q + d);
    Stretch(x, d, q);
    CancelLe(q * x, y, d);
    CancelLt(y, q * x + x, d);
    DivModUnique(y, x, q, y - q * x);
  }

  lemma CancelLe(a: int, b: int, d: int)
    requires d > 0 && a * d <= b * d
    ensures a <= b
  {
    if a > b {
      MulLe(d, b + 1, a);
    }
  }

  lemma CancelLt(a: int, b: int, d: int)
    requires d > 0 && a * d < b * d
    ensures a < b
  {
    if a >= b {
      MulLe(d, b, a);
    }
  }

  // ---------------------------------------------------------------- division

  /** The high word of a product of two words. */
  function MulHi(w: nat, x: nat, y: nat): (h: nat)
    requires Width(w) && x < Pow2(w) && y < Pow2(w)
    ensures h == (x * y) / Pow2(w)
  {
    Pow2Values();
    MulLe(x, 0, y);
    QuotientNonNegative(x * y, Pow2(w));
    if w == 64 then MulHiU64(x, y) else (x * y) / B32
  }

  /** libdivide_u32_do and libdivide_u64_do. */
  function Do(w: nat, den: Divider, n: nat): nat
    requires Width(w) && n < Pow2(w) && den.magic < Pow2(w)
  {
    if den.magic == 0 then
      Shr(n, den.more)
    else
      var q := MulHi(w, den.magic, n);
      if BitAnd(den.more, ADD_MARKER) != 0 then
        Shr(Average(w, n, q), BitAnd(den.more, w - 1))
      else
        Shr(q, den.more)
  }

  /** ((n - q) >> 1) + q in w-bit arithmetic. */
  function Average(w: nat, n: nat, q: nat): nat {
    (((n - q) % Pow2(w)) / 2 + q) % Pow2(w)
  }

  /** libdivide_u32_branchfree_do and libdivide_u64_branchfree_do. */
  function BranchfreeDo(w: nat, den: Divider, n: nat): nat
    requires Width(w) && n < Pow2(w) && den.magic < Pow2(w)
  {
    var q := MulHi(w, den.magic, n);
    Shr(Average(w, n, q), den.more)
  }

  /** The magic factor is the rounded-up quotient of a power of two by d, so that
      its excess e over the exact quotient stays small. */
  ghost predicate SmallMagic(w: nat, d: nat, magic: nat) {
    var l := Log(d);
    var e := magic * d - Pow2(w) * Pow2(l);
    0 < magic < Pow2(w) && 0 < e < Pow2(l)
  }

  /** As SmallMagic, one bit longer: the factor is 2^w + magic. */
  ghost predicate LongMagic(w: nat, d: nat, magic: nat) {
    var l := Log(d);
    var e := (Pow2(w) + magic) * d - Pow2(w) * (2 * Pow2(l));
    0 < magic < Pow2(w) && 0 < e <= d
  }

  /** FloorLog2, total. */
  function Log(d: nat): nat {
    if d == 0 then 0 else FloorLog2(d)
  }

  lemma HighAtMost(N: nat, n: nat, m: nat)
    requires N > 0 && m < N
    ensures 0 <= (m * n) / N <= n
    ensures ((N + m) * n) / N == n + (m * n) / N
  {
    MulLe(n, 0, m);
    MulLe(n, m, N);
    QuotientNonNegative(m * n, N);
    var q, r := (m * n) / N, (m * n) % N;
    assert m * n == N * q + r;
    CancelLe(q, n, N);
    DistributeSum(N, n, m, q, r);
    DivModUnique((N + m) * n, N, n + q, r);
  }

  lemma DistributeSum(N: int, n: int, m: int, q: int, r: int)
    requires m * n == N * q + r
    ensures (N + m) * n == N * (n + q) + r
  {
  }

  lemma AverageExact(w: nat, n: nat, magic: nat)
    requires n < Pow2(w) && magic < Pow2(w)
    ensures 0 <= (magic * n) / Pow2(w) <= n
    ensures Average(w, n, (magic * n) / Pow2(w)) == (((Pow2(w) + magic) * n) / Pow2(w)) / 2
  {
    hide Pow2;
    var N := Pow2(w);
    HighAtMost(N, n, magic);
    var q := (magic * n) / N;
    DivModUnique(n - q, N, 0, n - q);
    DivModUnique((n - q) / 2 + q, N, 0, (n - q) / 2 + q);
  }

  // ---------------------------------------------------------------- the more byte

  lemma PlainShift(w: nat, l: nat)
    requires Width(w) && l < w
    ensures BitAnd(l, ADD_MARKER) == 0
    ensures BitAnd(l, w - 1) == l
  {
    Pow2Values();
    AndBit(l, 6);
    DivModUnique(l, 64, 0, l);
    AndLow(l, if w == 32 then 5 else 6);
    DivModUnique(l, w, 0, l);
  }

  lemma MarkedShift(w: nat, l: nat)
    requires Width(w) && l < w
    ensures BitAnd(BitOr(l, ADD_MARKER), ADD_MARKER) != 0
    ensures BitAnd(BitOr(l, ADD_MARKER), w - 1) == l
  {
    hide BitAnd;
    hide BitOr;
    Pow2Values();
    OrDisjoint(1, l, 6);
    AndBit(l + 64, 6);
    DivModUnique(l + 64, 64, 1, l);
    AndLow(l + 64, if w == 32 then 5 else 6);
    DivModUnique(l + 64, w, 64 / w, l);
  }

  lemma MarkedByte(l: nat)
    requires l < 64
    ensures BitOr(l, ADD_MARKER) == l + 0x40
  {
    hide BitOr;
    Pow2Values();
    OrDisjoint(1, l, 6);
  }

  lemma LogBelowWidth(w: nat, d: nat)
    requires 0 < d < Pow2(w)
    ensures FloorLog2(d) < w
  {
    if FloorLog2(d) >= w {
      Pow2Order(w, FloorLog2(d));
    }
  }

  // ---------------------------------------------------------------- what a divider must hold

  /** A divider for d, as the plain generator leaves it. */
  ghost predicate DividerFor(w: nat, d: nat, den: Divider) {
    && 0 < d < Pow2(w)
    && var l := FloorLog2(d);
       || (den.magic == 0 && den.more == l && d == Pow2(l))
       || (SmallMagic(w, d, den.magic) && den.more == l)
       || (LongMagic(w, d, den.magic) && den.more == BitOr(l, ADD_MARKER))
  }

  /** A divider for d, as the branch-free generator leaves it. */
  ghost predicate BranchfreeDividerFor(w: nat, d: nat, den: Divider) {
    && 1 < d < Pow2(w)
    && var l := FloorLog2(d);
       || (den.magic == 0 && den.more == l - 1 && d == Pow2(l))
       || (LongMagic(w, d, den.magic) && den.more == l)
  }

  /** Multiply, keep the high word, shift: the exact quotient for every numerator
      below N, as long as the excess e of the magic factor is below P. */
  lemma MagicShift(N: nat, P: nat, d: nat, m: nat, e: nat, n: nat)
    requires N > 0 && P > 0 && d > 0 && m * d == N * P + e && e < P && n < N
    ensures (m * n) / N >= 0 && ((m * n) / N) / P == n / d
  {
    MulLe(n, e, P);
    MulLe(P, n + 1, N);
    MagicFloor(N * P, d, m, e, n);
    MulLe(n, 0, m);
    QuotientNonNegative(m * n, N);
    DivDiv(m * n, N, P);
  }

  lemma SmallMagicDivides(w: nat, d: nat, magic: nat, n: nat)
    requires d > 0 && SmallMagic(w, d, magic) && n < Pow2(w)
    ensures (magic * n) / Pow2(w) >= 0
    ensures Shr((magic * n) / Pow2(w), FloorLog2(d)) == n / d
  {
    var N, p := Pow2(w), Pow2(FloorLog2(d));
    MagicShift(N, p, d, magic, magic * d - N * p, n);
  }

  lemma LongMagicDivides(w: nat, d: nat, magic: nat, n: nat)
    requires w > 0 && d > 0 && LongMagic(w, d, magic) && n < Pow2(w)
    ensures 0 <= (magic * n) / Pow2(w) <= n
    ensures Shr(Average(w, n, (magic * n) / Pow2(w)), FloorLog2(d)) == n / d
  {
    var N, p := Pow2(w), Pow2(FloorLog2(d));
    var m := N + magic;
    MagicShift(N, 2 * p, d, m, m * d - N * (2 * p), n);
    AverageExact(w, n, magic);
    ModTwice((m * n) / N, p);
  }

  /** The divider divides: for every numerator the result is the exact quotient. */
  lemma DoIsDivision(w: nat, d: nat, den: Divider, n: nat)
    requires Width(w) && DividerFor(w, d, den) && n < Pow2(w)
    ensures Do(w, den, n) == n / d
  {
    var l := FloorLog2(d);
    LogBelowWidth(w, d);
    if den.magic == 0 {
    } else if den.more == l && SmallMagic(w, d, den.magic) {
      SmallMagicDivides(w, d, den.magic, n);
      PlainShift(w, l);
    } else {
      LongMagicDivides(w, d, den.magic, n);
      MarkedShift(w, l);
    }
  }

  /** With a zero magic the average halves the numerator. */
  lemma HalvedShift(w: nat, l: nat, n: nat)
    requires l >= 1 && n < Pow2(w)
    ensures Shr(Average(w, n, 0), l - 1) == n / Pow2(l)
  {
    DivModUnique(n, Pow2(w), 0, n);
    DivModUnique(n / 2, Pow2(w), 0, n / 2);
    ModTwice(n, Pow2(l - 1));
  }

  lemma BranchfreeDoIsDivision(w: nat, d: nat, den: Divider, n: nat)
    requires Width(w) && BranchfreeDividerFor(w, d, den) && n < Pow2(w)
    ensures BranchfreeDo(w, den, n) == n / d
  {
    hide Average;
    hide Pow2;
    hide Shr;
    if den.magic == 0 {
      DivModUnique(0, Pow2(w), 0, 0);
      HalvedShift(w, FloorLog2(d), n);
    } else {
      hide LongMagic;
      LongMagicDivides(w, d, den.magic, n);
    }
  }

  // ---------------------------------------------------------------- generation

  /** hi * 2^w divided by d: the double-word division of the given width. */
  method DivWide(w: nat, hi: nat, d: nat) returns (q: nat, r: nat)
    requires Width(w) && hi < d < Pow2(w)
    ensures Pow2(w) * hi == d * q + r && r < d && q < Pow2(w)
  {
    Pow2Values();
    var N := Pow2(w);
    if w == 64 {
      q, r := Div128By64(hi, 0, d);
      DivIsQuotient(hi * N, d);
      MulComm(hi, N);
    } else {
      var n := hi * B32;
      DivIsQuotient(n, d);
      WordQuotient(hi, d, N);
      MulComm(hi, N);
      q := (n / d) % B32;
      r := (n - q * d) % B32;
    }
  }

  lemma WordQuotient(hi: nat, d: nat, N: nat)
    requires hi < d < N
    ensures 0 <= (hi * N) / d < N
    ensures hi * N == d * ((hi * N) / d) + (hi * N) % d
    ensures ((hi * N) / d) % N == (hi * N) / d
    ensures (hi * N - ((hi * N) / d) * d) % N == (hi * N) % d
  {
    MulLe(N, hi + 1, d);
    MulLe(N, 0, hi);
    QuotientFits(hi * N, d, N);
  }

  lemma DividendSplit(n: nat, d: nat, q: int, r: int)
    requires d > 0 && q == n / d && r == n % d
    ensures n == d * q + r && n - q * d == r
  {
    MulComm(d, q);
  }

  lemma QuotientBelow(n: nat, d: nat, N: nat, q: int, r: int)
    requires 0 < d && n == d * q + r && r >= 0 && n < d * N
    ensures q < N
  {
    if q >= N {
      MulLe(d, N, q);
    }
  }

  lemma QuotientFits(n: nat, d: nat, N: nat)
    requires 0 < d < N && n < d * N
    ensures 0 <= n / d < N
    ensures n == d * (n / d) + n % d
    ensures (n / d) % N == n / d
    ensures (n - (n / d) * d) % N == n % d
  {
    var q, r := n / d, n % d;
    QuotientNonNegative(n, d);
    DividendSplit(n, d, q, r);
    QuotientBelow(n, d, N, q, r);
    DivModUnique(q, N, 0, q);
    DivModUnique(r, N, 0, r);
  }

  /** Doubling a remainder and comparing with d, in wrapping arithmetic. */
  lemma TwiceTest(N: nat, d: nat, rem: nat)
    requires rem < d < N
    ensures ((2 * rem) % N >= d || (2 * rem) % N < rem) <==> 2 * rem >= d
  {
    if 2 * rem < N {
      DivModUnique(2 * rem, N, 0, 2 * rem);
    } else {
      DivModUnique(2 * rem, N, 1, 2 * rem - N);
    }
  }

  lemma SmallMagicFound(N: nat, p: nat, d: nat, m: nat, rem: nat)
    requires N * p == d * m + rem && rem < d && p < d < N && d - rem < p
    ensures (m + 1) * d == N * p + (d - rem) && m + 1 < N
  {
    MulLe(N, p + 1, d);
    CancelLt(m + 1, N, d);
  }

  lemma SmallFactor(w: nat, d: nat, m: nat, rem: nat)
    requires Pow2(w) * Pow2(Log(d)) == d * m + rem && rem < d < Pow2(w) && Pow2(Log(d)) < d
    requires d - rem < Pow2(Log(d))
    ensures (1 + m) % Pow2(w) == m + 1 && SmallMagic(w, d, m + 1)
  {
    SmallMagicFound(Pow2(w), Pow2(Log(d)), d, m, rem);
    DivModUnique(1 + m, Pow2(w), 0, 1 + m);
  }

  /** Doubling quotient m and remainder rem, rounded up: the longer magic factor. */
  function Doubled(m: nat, rem: nat, d: nat): nat {
    if 2 * rem >= d then 2 * m + 2 else 2 * m + 1
  }

  lemma DoubledExcess(x: nat, a: nat, m: nat, rem: nat)
    requires x == a * m + rem && rem < a
    ensures 0 < Doubled(m, rem, a) * a - 2 * x <= a
  {
    var am := a * m;
    assert Doubled(m, rem, a) * a == if 2 * rem >= a then 2 * am + 2 * a else 2 * am + a;
  }

  lemma DoubledRange(H: nat, p: nat, a: nat, m: nat)
    requires p < a <= H && a < 2 * p && 0 < m * a - 2 * H * p <= a
    ensures H < m < 2 * H
  {
    MulLe(H, a + 1, 2 * p);
    assert H * (2 * p) == 2 * H * p;
    CancelLt(H, m, a);
    MulLe(2 * H, p + 1, a);
    assert 2 * H * (p + 1) == 2 * H * p + 2 * H;
    CancelLt(m, 2 * H, a);
  }

  lemma TwiceProduct(a: int, b: int)
    ensures a * (2 * b) == 2 * (a * b) && 2 * a * b == 2 * (a * b)
  {
  }

  lemma LongMagicFound(N: nat, p: nat, d: nat, m: nat, rem: nat)
    requires N * p == d * m + rem && rem < d && p < d < N && d < 2 * p
    ensures 0 < Doubled(m, rem, d) * d - N * (2 * p) <= d
    ensures N < Doubled(m, rem, d) < 2 * N
  {
    hide Doubled;
    DoubledExcess(N * p, d, m, rem);
    TwiceProduct(N, p);
    DoubledRange(N, p, d, Doubled(m, rem, d));
  }

  /** What the internal generator leaves: l is the position of the top bit of d. */
  ghost predicate Generated(w: nat, d: nat, branchfree: bool, den: Divider) {
    var l := Log(d);
    || (den.magic == 0 && d == Pow2(l) && den.more == if !branchfree then l else if l == 0 then 255 else l - 1)
    || (den.magic > 0 && d != Pow2(l) && Factor(w, d, l, branchfree, den))
  }

  ghost predicate Factor(w: nat, d: nat, l: nat, branchfree: bool, den: Divider) {
    || (den.more == l && !branchfree && SmallMagic(w, d, den.magic))
    || (den.more == BitOr(l, ADD_MARKER) && LongMagic(w, d, den.magic))
  }

  /** libdivide_internal_u32_gen and libdivide_internal_u64_gen. */
  method InternalGen(w: nat, d: nat, branchfree: bool) returns (result: Option<Divider>)
    requires Width(w) && d < Pow2(w)
    ensures result.None? <==> d == 0
    ensures d > 0 ==> Generated(w, d, branchfree, result.value)
    ensures d > 0 && !branchfree ==> forall m: nat :: SmallMagic(w, d, m) ==> result.value.magic == m
  {
    if d == 0 {
      return None;
    }
    var l := FloorLog2(d);
    LogBelowWidth(w, d);
    PowerOfTwoTest(d);
    if BitAnd(d, d - 1) == 0 {
      NoSmallMagic(w, d);
      return Some(Divider(0, ShiftByte(l, branchfree)));
    }
    var den := MagicFactor(w, d, l, branchfree);
    result := Some(den);
  }

  /** The shift stored for a power of two, truncated to a byte. */
  function ShiftByte(l: nat, branchfree: bool): (b: nat)
    requires l < 64
    ensures b == if !branchfree then l else if l == 0 then 255 else l - 1
  {
    (l - BranchfreeBit(branchfree)) % 256
  }

  function BranchfreeBit(branchfree: bool): int {
    if branchfree then 1 else 0
  }

  /** The next multiple of d after x. */
  lemma OnlyNext(x: nat, d: nat, q: nat, rem: nat, m: nat)
    requires d > 0 && x == d * q + rem && rem < d && 0 < m * d - x < d
    ensures m == q + 1 && m * d - x == d - rem
  {
    CancelLt(q, m, d);
    CancelLt(m, q + 2, d);
  }

  /** The only factor that can be short is the quotient plus one, and its excess is d - rem. */
  lemma OnlySmallMagic(w: nat, d: nat, q: nat, rem: nat)
    requires d > 0 && Pow2(w) * Pow2(Log(d)) == d * q + rem && rem < d
    ensures forall m: nat :: SmallMagic(w, d, m) ==> m == q + 1 && d - rem < Pow2(Log(d))
  {
    var p := Pow2(Log(d));
    var x := Pow2(w) * p;
    assert p <= d;
    assert forall m: nat :: SmallMagic(w, d, m) ==> 0 < m * d - x < p;
    hide *;
    forall m: nat | SmallMagic(w, d, m)
      ensures m == q + 1 && d - rem < p
    {
      OnlyNext(x, d, q, rem, m);
    }
  }

  lemma NoSmallMagic(w: nat, d: nat)
    requires d > 0 && d == Pow2(Log(d))
    ensures forall m: nat :: !SmallMagic(w, d, m)
  {
    OnlySmallMagic(w, d, Pow2(w), 0);
  }

  lemma IsFactor(w: nat, d: nat, l: nat, branchfree: bool)
    ensures forall m: nat :: SmallMagic(w, d, m) && !branchfree ==> Factor(w, d, l, branchfree, Divider(m, l))
    ensures forall m: nat :: LongMagic(w, d, m) ==> Factor(w, d, l, branchfree, Divider(m, BitOr(l, ADD_MARKER)))
    ensures forall m: nat :: SmallMagic(w, d, m) || LongMagic(w, d, m) ==> m > 0
  {
  }

  /** The branch of the generator for divisors that are not powers of two. */
  method MagicFactor(w: nat, d: nat, l: nat, branchfree: bool) returns (den: Divider)
    requires Width(w) && Pow2(l) < d < Pow2(w) && l == Log(d)
    ensures den.magic > 0 && Factor(w, d, l, branchfree, den) && (den.more == l || den.more == l + 0x40)
    ensures !branchfree ==> forall m: nat :: SmallMagic(w, d, m) ==> den.magic == m
  {
    LogBelowWidth(w, d);
    MarkedByte(l);
    IsFactor(w, d, l, branchfree);
    hide *;
    var proposed, rem := DivWide(w, Pow2(l), d);
    OnlySmallMagic(w, d, proposed, rem);
    ghost var N, p := Pow2(w), Pow2(l);
    var e := d - rem;
    if !branchfree && e < Pow2(l) {
      SmallFactor(w, d, proposed, rem);
      den := Divider((1 + proposed) % Pow2(w), l);
    } else {
      var magic := DoubleMagic(w, d, p, proposed, rem);
      den := Divider(magic, BitOr(l, ADD_MARKER));
    }
  }

  /** Doubles the quotient and its remainder, letting the top bit wrap away. */
  method DoubleMagic(w: nat, d: nat, ghost p: nat, m: nat, rem: nat) returns (magic: nat)
    requires p == Pow2(Log(d)) && p < d < Pow2(w)
    requires Pow2(w) * p == d * m + rem && rem < d
    ensures LongMagic(w, d, magic)
  {
    var N := Pow2(w);
    TwiceTest(N, d, rem);
    LongMagicFound(N, p, d, m, rem);
    WrapToLow(N, m, rem, d);
    var proposed := (m + m) % N;
    var twiceRem := (rem + rem) % N;
    if twiceRem >= d || twiceRem < rem {
      proposed := (proposed + 1) % N;
    }
    magic := (1 + proposed) % N;
  }

  lemma WrapToLow(N: nat, m: nat, rem: nat, d: nat)
    requires N < Doubled(m, rem, d) < 2 * N
    ensures 2 * rem >= d ==> (1 + ((m + m) % N + 1) % N) % N == Doubled(m, rem, d) - N
    ensures 2 * rem < d ==> (1 + (m + m) % N) % N == Doubled(m, rem, d) - N
  {
    var t := 2 * m;
    if t >= N {
      DivModUnique(t, N, 1, t - N);
      DivModUnique(1 + t - N, N, 0, 1 + t - N);
      if 2 * rem >= d {
        DivModUnique(2 + t - N, N, 0, 2 + t - N);
      }
    } else {
      DivModUnique(t, N, 0, t);
      DivModUnique(N, N, 1, 0);
      DivModUnique(1, N, 0, 1);
    }
  }

  /** libdivide_u32_gen and libdivide_u64_gen; None stands for the aborting error.
      The divider found divides every word exactly. */
  method Gen(w: nat, d: nat) returns (result: Option<Divider>)
    requires Width(w) && d < Pow2(w)
    ensures result.None? <==> d == 0
    ensures result.Some? ==> DividerFor(w, d, result.value)
    ensures result.Some? ==> forall n: nat | n < Pow2(w) :: Do(w, result.value, n) == n / d
    ensures result.Some? ==> (result.value.magic == 0 <==> d == Pow2(FloorLog2(d)))
    ensures result.Some? ==> forall m: nat :: SmallMagic(w, d, m) ==> result.value.magic == m
  {
    result := InternalGen(w, d, false);
    if result.Some? {
      forall n: nat | n < Pow2(w)
        ensures Do(w, result.value, n) == n / d
      {
        DoIsDivision(w, d, result.value, n);
      }
    }
  }

  /** Masking the byte leaves the shift alone. */
  lemma StripMarker(w: nat, d: nat, den: Divider)
    requires Width(w) && 1 < d < Pow2(w) && Generated(w, d, true, den)
    ensures BranchfreeDividerFor(w, d, Divider(den.magic, BitAnd(den.more, w - 1)))
  {
    hide Pow2;
    hide LongMagic;
    hide BitAnd;
    hide BitOr;
    var l := FloorLog2(d);
    LogBelowWidth(w, d);
    hide FloorLog2;
    if den.magic == 0 {
      PlainShift(w, l - 1);
    } else {
      MarkedShift(w, l);
    }
  }

  /** libdivide_u32_branchfree_gen and libdivide_u64_branchfree_gen. */
  method BranchfreeGen(w: nat, d: nat) returns (result: Option<Divider>)
    requires Width(w) && d < Pow2(w)
    ensures result.None? <==> d <= 1
    ensures result.Some? ==> BranchfreeDividerFor(w, d, result.value)
    ensures result.Some? ==> forall n: nat | n < Pow2(w) :: BranchfreeDo(w, result.value, n) == n / d
  {
    if d == 1 {
      return None;
    }
    var tmp := InternalGen(w, d, true);
    if tmp.None? {
      return None;
    }
    var den := Divider(tmp.value.magic, BitAnd(tmp.value.more, w - 1));
    StripMarker(w, d, tmp.value);
    forall n: nat | n < Pow2(w)
      ensures BranchfreeDo(w, den, n) == n / d
    {
      BranchfreeDoIsDivision(w, d, den, n);
    }
    result := Some(den);
  }

  // ---------------------------------------------------------------- recovery

  /** The exact quotient behind a rounded-up factor: x / m is d - 1. */
  lemma RecoverQuotient(x: nat, d: nat, m: nat)
    requires d > 0 && 0 < m * d - x <= m
    ensures x / m == d - 1
  {
    assert m * (d - 1) == m * d - m;
    DivModUnique(x, m, d - 1, x - m * (d - 1));
  }

  lemma SmallMagicLarge(N: nat, p: nat, d: nat, magic: nat)
    requires 2 * p <= N && p < d < 2 * p && magic * d > N * p
    ensures magic > p
  {
    MulLe(magic, d, 2 * p);
    assert magic * (2 * p) == (2 * magic) * p;
    CancelLt(N, 2 * magic, p);
  }

  lemma SameQuotient(n: nat, d: nat, a: int, b: int)
    requires d > 0 && IsQuotient(n, d, a) && IsQuotient(n, d, b)
    ensures a == b
  {
    CancelLt(a, b + 1, d);
    CancelLt(b, a + 1, d);
  }

  /** Doubling quotient and remainder of x / m gives the quotient of 2x / m. */
  lemma DoubledQuotient(x: nat, m: nat, q: nat, r: nat, want: nat)
    requires m > 0 && x == m * q + r && r < m && IsQuotient(2 * x, m, want)
    ensures want == 2 * q + (if 2 * r >= m then 1 else 0)
  {
    assert (2 * q) * m == 2 * (m * q);
    assert (2 * q + 1) * m == 2 * (m * q) + m;
    assert (2 * q + 2) * m == 2 * (m * q) + 2 * m;
    SameQuotient(2 * x, m, want, if 2 * r >= m then 2 * q + 1 else 2 * q);
  }

  /** Twice the quotient, plus one when twice the remainder reaches the divisor. */
  function FullQuotient(halfQ: Word64, rHi: Word64, rLo: Word64, magic: Word64): nat {
    var drLo := Add64(rLo, rLo);
    var drHi := Add64(Add64(rHi, rHi), if drLo < rLo then 1 else 0);
    Add64(Add64(halfQ, halfQ), if drHi > 1 || (drHi == 1 && drLo >= magic) then 1 else 0)
  }

  lemma FullQuotientValue(halfQ: Word64, rHi: Word64, rLo: Word64, magic: Word64)
    requires rHi <= 1
    requires 2 * halfQ + (if 2 * Pair(rHi, rLo) >= B64 + magic then 1 else 0) < B64
    ensures FullQuotient(halfQ, rHi, rLo, magic) == 2 * halfQ + (if 2 * Pair(rHi, rLo) >= B64 + magic then 1 else 0)
  {
    DoublePair(rHi, rLo);
  }

  /** Double-word hi * 2^64 over the 65-bit factor, then doubled with its remainder. */
  method LongRecover64(magic: Word64, hi: Word64, ghost want: nat) returns (fullQ: nat)
    requires IsQuotient(2 * (hi * B64), B64 + magic, want) && want < B64
    ensures fullQ == want
  {
    var halfQ, rHi, rLo := Div128By128(hi, 0, 1, magic);
    LongRecoverStep(hi, magic, halfQ, rHi, rLo, want);
    fullQ := FullQuotient(halfQ, rHi, rLo, magic);
  }

  lemma LongRecoverStep(hi: Word64, magic: Word64, halfQ: Word64, rHi: Word64, rLo: Word64, want: nat)
    requires halfQ == Pair(hi, 0) / Pair(1, magic) && Pair(rHi, rLo) == Pair(hi, 0) % Pair(1, magic)
    requires IsQuotient(2 * (hi * B64), B64 + magic, want) && want < B64
    ensures FullQuotient(halfQ, rHi, rLo, magic) == want
  {
    var x, m := hi * B64, B64 + magic;
    assert x == m * halfQ + Pair(rHi, rLo);
    DoubledQuotient(x, m, halfQ, Pair(rHi, rLo), want);
    FullQuotientValue(halfQ, rHi, rLo, magic);
  }

  /** The same for 32 bits, where a 64-bit division suffices. */
  method LongRecover32(magic: Word32, hi: Word32, ghost want: nat) returns (fullQ: nat)
    requires IsQuotient(2 * (hi * B32), B32 + magic, want) && want < B32
    ensures fullQ == want
  {
    var halfN, m := hi * B32, B32 + magic;
    Recover32Step(halfN, m, want);
    hide IsQuotient;
    DivModUnique(halfN / m, B32, 0, halfN / m);
    DivModUnique(want, B32, 0, want);
    var halfQ := (halfN / m) % B32;
    fullQ := (halfQ + halfQ + (if 2 * (halfN % m) >= m then 1 else 0)) % B32;
  }

  lemma Recover32Step(n: nat, m: nat, want: nat)
    requires m > 0 && IsQuotient(2 * n, m, want) && want < B32
    ensures 0 <= n / m < B32
    ensures want == 2 * (n / m) + (if 2 * (n % m) >= m then 1 else 0)
  {
    QuotientNonNegative(n, m);
    assert n == m * (n / m) + n % m;
    DoubledQuotient(n, m, n / m, n % m, want);
  }

  method LongRecover(w: nat, magic: nat, shift: nat, ghost d: nat) returns (r: nat)
    requires Width(w) && 0 < d < Pow2(w) && shift == FloorLog2(d) && LongMagic(w, d, magic)
    ensures r == d
  {
    LogBelowWidth(w, d);
    LongQuotient(w, magic, shift, d);
    Pow2Values();
    Pow2Monotone(shift, w);
    var fullQ;
    if w == 64 {
      fullQ := LongRecover64(magic, Pow2(shift), d - 1);
    } else {
      fullQ := LongRecover32(magic, Pow2(shift), d - 1);
    }
    r := fullQ + 1;
  }

  lemma LongQuotient(w: nat, magic: nat, shift: nat, d: nat)
    requires 0 < d < Pow2(w) && shift == FloorLog2(d) && LongMagic(w, d, magic)
    ensures IsQuotient(2 * (Pow2(shift) * Pow2(w)), Pow2(w) + magic, d - 1)
  {
    RoundedUp(Pow2(w), Pow2(shift), Pow2(w) + magic, d);
  }

  lemma RoundedUp(N: nat, p: nat, m: nat, d: nat)
    requires d > 0 && d <= m && 0 < m * d - N * (2 * p) <= d
    ensures IsQuotient(2 * (p * N), m, d - 1)
  {
    assert N * (2 * p) == 2 * (p * N);
    assert (d - 1) * m == m * d - m;
    MulComm(d, m);
  }

  lemma DoublePair(rHi: Word64, rLo: Word64)
    requires rHi <= 1
    ensures Pair(Add64(Add64(rHi, rHi), if Add64(rLo, rLo) < rLo then 1 else 0), Add64(rLo, rLo)) == 2 * Pair(rHi, rLo)
  {
  }

  method SmallRecover(w: nat, magic: nat, shift: nat, ghost d: nat) returns (r: nat)
    requires Width(w) && 0 < d < Pow2(w) && shift == FloorLog2(d) && d != Pow2(shift) && SmallMagic(w, d, magic)
    ensures r == d
  {
    hide Pow2;
    hide SmallMagic;
    SmallFactorRange(w, magic, shift, d);
    var q, rest := DivWide(w, Pow2(shift), magic);
    QuotientBehind(Pow2(w) * Pow2(shift), d, magic, q, rest);
    r := 1 + q;
  }

  lemma SmallFactorRange(w: nat, magic: nat, shift: nat, d: nat)
    requires Width(w) && 0 < d < Pow2(w) && shift == FloorLog2(d) && d != Pow2(shift) && SmallMagic(w, d, magic)
    ensures Pow2(shift) < magic < Pow2(w) && 0 < magic * d - Pow2(w) * Pow2(shift) <= magic
  {
    LogBelowWidth(w, d);
    Pow2Monotone(shift, w);
    SmallMagicLarge(Pow2(w), Pow2(shift), d, magic);
  }

  lemma QuotientBehind(x: nat, d: nat, m: nat, q: nat, r: nat)
    requires d > 0 && 0 < m * d - x <= m && x == m * q + r && r < m
    ensures 1 + q == d
  {
    RecoverQuotient(x, d, m);
    DivModUnique(x, m, q, r);
  }

  /** The small factor is never used for a power of two. */
  lemma SmallNotPower(w: nat, d: nat, magic: nat)
    requires d > 0 && SmallMagic(w, d, magic)
    ensures d != Pow2(FloorLog2(d))
  {
    var p := Pow2(FloorLog2(d));
    if d == p {
      MulComm(magic, p);
      assert magic * d - Pow2(w) * p == (magic - Pow2(w)) * p;
      MulLe(p, magic - Pow2(w), -1);
    }
  }

  /** libdivide_u32_recover and libdivide_u64_recover give back the divisor. */
  method Recover(w: nat, den: Divider, ghost d: nat) returns (r: nat)
    requires Width(w) && DividerFor(w, d, den)
    ensures r == d
  {
    ghost var l := FloorLog2(d);
    LogBelowWidth(w, d);
    PlainShift(w, l);
    MarkedShift(w, l);
    var shift := BitAnd(den.more, w - 1);
    if den.magic == 0 {
      r := Pow2(shift);
    } else if BitAnd(den.more, ADD_MARKER) == 0 {
      SmallNotPower(w, d, den.magic);
      r := SmallRecover(w, den.magic, shift, d);
    } else {
      r := LongRecover(w, den.magic, shift, d);
    }
  }

  /** libdivide_u32_branchfree_recover and libdivide_u64_branchfree_recover. */
  method BranchfreeRecover(w: nat, den: Divider, ghost d: nat) returns (r: nat)
    requires Width(w) && BranchfreeDividerFor(w, d, den)
    ensures r == d
  {
    LogBelowWidth(w, d);
    PlainShift(w, den.more);
    var shift := BitAnd(den.more, w - 1);
    if den.magic == 0 {
      r := Pow2(shift + 1);
    } else {
      r := LongRecover(w, den.magic, shift, d);
    }
  }
}