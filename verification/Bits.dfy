/**
 Machine words as natural numbers: powers of two, the bitwise operators the
 sources use, and the facts that turn masks and shifts into arithmetic.
 */
module Bits {

  function Pow2(n: nat): (p: nat)
    ensures p > 0
  {
    if n == 0 then 1 else 2 * Pow2(n - 1)
  }

  lemma {:induction false} Pow2Add(a: nat, b: nat)
    ensures Pow2(a + b) == Pow2(a) * Pow2(b)
  {
    if a == 0 {
    } else {
      Pow2Add(a - 1, b);
      assert Pow2(a + b) == 2 * Pow2(a + b - 1);
    }
  }

  lemma {:induction false} Pow2Monotone(a: nat, b: nat)
    requires a < b
    ensures 2 * Pow2(a) <= Pow2(b)
    decreases b
  {
    if a + 1 < b {
      Pow2Monotone(a, b - 1);
    }
  }

  lemma Pow2Values()
    ensures Pow2(5) == 32 && Pow2(6) == 64 && Pow2(7) == 128 && Pow2(8) == 256
    ensures Pow2(32) == 0x1_0000_0000
    ensures Pow2(64) == 0x1_0000_0000_0000_0000
  {
    assert Pow2(4) == 16;
    assert Pow2(8) == 256;
    Pow2Add(8, 8);
    assert Pow2(16) == 0x1_0000;
    Pow2Add(16, 16);
    assert Pow2(32) == 0x1_0000_0000;
    Pow2Add(32, 32);
  }

  lemma Pow2Order(a: nat, b: nat)
    requires a <= b
    ensures Pow2(a) <= Pow2(b)
  {
    if a < b {
      Pow2Monotone(a, b);
    }
  }

  /** Position of the most significant set bit. */
  function FloorLog2(n: nat): (l: nat)
    requires n > 0
    ensures Pow2(l) <= n < 2 * Pow2(l)
  {
    if n == 1 then 0 else 1 + FloorLog2(n / 2)
  }

  lemma FloorLog2Unique(n: nat, l: nat)
    requires Pow2(l) <= n < 2 * Pow2(l)
    ensures FloorLog2(n) == l
  {
    var k := FloorLog2(n);
    if k < l {
      Pow2Monotone(k, l);
    } else if l < k {
      Pow2Monotone(l, k);
    }
  }

  function BitAnd(a: nat, b: nat): (r: nat)
    ensures r <= a && r <= b
  {
    if a == 0 || b == 0 then 0
    else 2 * BitAnd(a / 2, b / 2) + (a % 2) * (b % 2)
  }

  function BitOr(a: nat, b: nat): nat {
    if a == 0 && b == 0 then 0
    else 2 * BitOr(a / 2, b / 2) + (if a % 2 == 1 || b % 2 == 1 then 1 else 0)
  }

  function BitXor(a: nat, b: nat): nat {
    if a == 0 && b == 0 then 0
    else 2 * BitXor(a / 2, b / 2) + (if a % 2 != b % 2 then 1 else 0)
  }

  /** The c-bit field of ones that starts at bit j. */
  function Field(c: nat, j: nat): nat {
    if j == 0 then Pow2(c) - 1 else 2 * Field(c, j - 1)
  }

  lemma {:induction false} FieldValue(c: nat, j: nat)
    ensures Field(c, j) == (Pow2(c) - 1) * Pow2(j)
  {
    if j > 0 {
      FieldValue(c, j - 1);
    }
  }

  lemma {:induction false} FieldDifference(c: nat, j: nat)
    ensures Field(c, j) == Pow2(c + j) - Pow2(j)
  {
    if j > 0 {
      FieldDifference(c, j - 1);
    }
  }

  lemma MulAtLeast(d: int, k: int)
    requires d > 0 && k > 0
    ensures d * k >= d
  {
  }

  lemma MulComm(a: int, b: int)
    ensures a * b == b * a
  {
  }

  lemma MulLe(p: nat, x: int, y: int)
    requires x <= y
    ensures p * x <= p * y
  {
  }

  lemma DivModUnique(x: int, d: int, q: int, r: int)
    requires d > 0 && 0 <= r < d && x == d * q + r
    ensures x / d == q && x % d == r
  {
    var q' := x / d;
    assert x == d * q' + x % d;
    assert d * (q' - q) == d * q' - d * q;
    if q' < q {
      MulAtLeast(d, q - q');
    } else if q < q' {
      MulAtLeast(d, q' - q);
    }
  }

  lemma DivDiv(x: int, a: nat, b: nat)
    requires a > 0 && b > 0
    ensures (x / a) / b == x / (a * b) && a * b > 0
  {
    var q, r := x / a, x % a;
    var s, t := q / b, q % b;
    assert x == a * q + r && q == b * s + t;
    assert a * (b * s + t) == (a * b) * s + a * t;
    MulLe(a, t + 1, b);
    MulLe(a, 0, t);
    DivModUnique(x, a * b, s, a * t + r);
  }

  lemma MulNegate(m: int, n: int)
    ensures m * (-n) == -(m * n) && (-m) * n == -(m * n)
  {
  }

  lemma AbsBound(x: int, y: int, a: int, b: int)
    requires -a <= x <= a && -b <= y <= b
    ensures -(a * b) <= x * y <= a * b
  {
    var u, v := if x < 0 then -x else x, if y < 0 then -y else y;
    MulLe(u, v, b);
    MulLe(b, u, a);
    MulNegate(x, y);
    MulNegate(u, v);
    assert x * y == u * v || x * y == -(u * v);
  }

  /** The remainder of the successor. */
  lemma ModSuccessor(k: nat, m: nat)
    requires m > 0
    ensures (k + 1) % m == if k % m + 1 == m then 0 else k % m + 1
  {
    var q, r := k / m, k % m;
    assert k == m * q + r;
    if r + 1 == m {
      assert m * (q + 1) == m * q + m;
      DivModUnique(k + 1, m, q + 1, 0);
    } else {
      DivModUnique(k + 1, m, q, r + 1);
    }
  }

  /** Reducing a summand first does not change the remainder of a sum. */
  lemma ModAdd(a: nat, b: nat, m: nat)
    requires m > 0
    ensures (a % m + b) % m == (a + b) % m
  {
    var q, r := a / m, (a % m + b) % m;
    assert a == m * q + a % m;
    var t := (a % m + b) / m;
    assert a % m + b == m * t + r;
    assert m * (q + t) == m * q + m * t;
    DivModUnique(a + b, m, q + t, r);
  }

  lemma ModTwice(x: nat, m: nat)
    requires m > 0
    ensures x % (2 * m) == 2 * ((x / 2) % m) + x % 2
    ensures x / (2 * m) == (x / 2) / m
  {
    var h := x / 2;
    var q := h / m;
    assert h == m * q + h % m;
    assert (2 * m) * q == 2 * (m * q);
    DivModUnique(x, 2 * m, q, 2 * (h % m) + x % 2);
  }

  lemma {:induction false} AndLow(x: nat, c: nat)
    ensures BitAnd(x, Pow2(c) - 1) == x % Pow2(c)
  {
    if c == 0 {
      DivModUnique(x, 1, x, 0);
    } else {
      var m := Pow2(c - 1);
      AndLow(x / 2, c - 1);
      ModTwice(x, m);
      assert (2 * m - 1) / 2 == m - 1 && (2 * m - 1) % 2 == 1;
    }
  }

  /** Masking with a field of ones extracts that field. */
  lemma {:induction false} AndField(x: nat, c: nat, j: nat)
    ensures BitAnd(x, Field(c, j)) == Low(Shr(x, j), c) * Pow2(j)
    decreases j
  {
    if j == 0 {
      AndLow(x, c);
      DivModUnique(x, 1, x, 0);
    } else {
      AndField(x / 2, c, j - 1);
      ShrStep(x, j);
      AndDouble(x, Field(c, j - 1));
      MulTwice(Low(Shr(x, j), c), Pow2(j - 1));
    }
  }

  /** Logical shift right. */
  function Shr(x: nat, j: nat): nat {
    QuotientNonNegative(x, Pow2(j));
    x / Pow2(j)
  }

  lemma QuotientNonNegative(x: nat, d: nat)
    requires d > 0
    ensures x / d >= 0
  {
    assert x == d * (x / d) + x % d;
  }

  /** The low c bits. */
  function Low(x: nat, c: nat): nat {
    x % Pow2(c)
  }

  lemma ShrLow(x: nat, j: nat)
    ensures x == Pow2(j) * Shr(x, j) + Low(x, j)
    ensures Low(x, j) < Pow2(j)
  {
  }

  lemma ShrRange(val: nat, b: nat, c: nat)
    requires val < Pow2(b + c)
    ensures Shr(val, b) < Pow2(c)
    ensures val >= Pow2(b) ==> Shr(val, b) > 0
  {
    Pow2Add(b, c);
    ShrLow(val, b);
    if Shr(val, b) >= Pow2(c) {
      MulLe(Pow2(b), Pow2(c), Shr(val, b));
    }
  }

  lemma ShrStep(x: nat, j: nat)
    requires j > 0
    ensures Shr(x, j) == Shr(x / 2, j - 1)
  {
    ModTwice(x, Pow2(j - 1));
  }

  lemma ShrZero(x: nat)
    ensures Shr(x, 0) == x
  {
    DivModUnique(x, 1, x, 0);
  }

  /** Exclusive or, bit by bit. */
  lemma {:induction false} XorBits(x: nat, y: nat, i: nat)
    ensures Shr(BitXor(x, y), i) % 2 == if Shr(x, i) % 2 != Shr(y, i) % 2 then 1 else 0
    decreases i
  {
    hide Shr;
    XorHalf(x, y);
    hide BitXor;
    if i == 0 {
      ShrZero(BitXor(x, y));
      ShrZero(x);
      ShrZero(y);
    } else {
      ShrStep(BitXor(x, y), i);
      ShrStep(x, i);
      ShrStep(y, i);
      XorBits(x / 2, y / 2, i - 1);
    }
  }

  lemma XorHalf(x: nat, y: nat)
    ensures BitXor(x, y) / 2 == BitXor(x / 2, y / 2)
    ensures BitXor(x, y) % 2 == if x % 2 != y % 2 then 1 else 0
  {
  }

  lemma MulTwice(y: int, p: int)
    ensures 2 * (y * p) == y * (2 * p)
  {
  }

  lemma AndDouble(x: nat, f: nat)
    ensures BitAnd(x, 2 * f) == 2 * BitAnd(x / 2, f)
  {
    assert (2 * f) / 2 == f && (2 * f) % 2 == 0;
    assert x == 0 ==> x / 2 == 0;
  }

  /** Testing one bit. */
  lemma AndBit(x: nat, j: nat)
    ensures BitAnd(x, Pow2(j)) == (Shr(x, j) % 2) * Pow2(j)
    ensures BitAnd(x, Pow2(j)) != 0 <==> Shr(x, j) % 2 == 1
  {
    AndField(x, 1, j);
    FieldValue(1, j);
  }

  /** Or-ing values that occupy disjoint bits adds them. */
  lemma {:induction false} OrDisjoint(hi: nat, lo: nat, j: nat)
    requires lo < Pow2(j)
    ensures BitOr(hi * Pow2(j), lo) == hi * Pow2(j) + lo
    ensures BitOr(lo, hi * Pow2(j)) == hi * Pow2(j) + lo
    decreases j
  {
    if j == 0 {
      OrZero(hi);
      assert hi * Pow2(0) == hi;
    } else {
      var p := Pow2(j - 1);
      assert hi * Pow2(j) == 2 * (hi * p);
      OrDisjoint(hi, lo / 2, j - 1);
      assert (2 * (hi * p)) / 2 == hi * p && (2 * (hi * p)) % 2 == 0;
    }
  }

  lemma {:induction false} OrZero(x: nat)
    ensures BitOr(x, 0) == x && BitOr(0, x) == x
  {
    if x > 0 {
      OrZero(x / 2);
    }
  }

  lemma {:induction false} XorZero(x: nat)
    ensures BitXor(x, 0) == x
  {
    if x > 0 {
      XorZero(x / 2);
    }
  }

  lemma XorOdd(x: nat, o: nat)
    ensures BitXor(x, 2 * o + 1) == 2 * BitXor(x / 2, o) + (1 - x % 2)
  {
    assert (2 * o + 1) / 2 == o && (2 * o + 1) % 2 == 1;
  }

  /** Exclusive or with all ones is the complement. */
  lemma {:induction false} XorOnes(x: nat, w: nat)
    requires x < Pow2(w)
    ensures BitXor(x, Pow2(w) - 1) == Pow2(w) - 1 - x
  {
    if w > 0 {
      XorOnes(x / 2, w - 1);
      XorOdd(x, Pow2(w - 1) - 1);
      hide BitXor;
    }
  }

  /** The test d & (d - 1) == 0 holds exactly for powers of two. */
  lemma {:induction false} PowerOfTwoTest(d: nat)
    requires d > 0
    ensures BitAnd(d, d - 1) == 0 <==> d == Pow2(FloorLog2(d))
  {
    if d % 2 == 0 {
      PowerOfTwoTest(d / 2);
      EvenTest(d / 2);
    } else if d > 1 {
      OddTest(d / 2);
      assert d == 2 * (d / 2) + 1;
    }
  }

  lemma EvenTest(h: nat)
    requires h > 0
    ensures BitAnd(2 * h, 2 * h - 1) == 2 * BitAnd(h, h - 1)
  {
    assert (2 * h) / 2 == h && (2 * h - 1) / 2 == h - 1;
  }

  lemma OddTest(h: nat)
    requires h > 0
    ensures BitAnd(2 * h + 1, 2 * h) != 0
    ensures 2 * h + 1 != Pow2(FloorLog2(2 * h + 1))
  {
    AndSelf(h);
    assert (2 * h + 1) / 2 == h && (2 * h) / 2 == h && (2 * h + 1) % 2 == 1;
    assert FloorLog2(2 * h + 1) == 1 + FloorLog2(h);
  }

  lemma {:induction false} AndOnes(w: nat, y: nat)
    requires y < Pow2(w)
    ensures BitAnd(Pow2(w) - 1, y) == y
  {
    if w > 0 && y > 0 {
      AndOnes(w - 1, y / 2);
      assert (Pow2(w) - 1) / 2 == Pow2(w - 1) - 1;
    }
  }

  lemma {:induction false} AndSelf(x: nat)
    ensures BitAnd(x, x) == x
  {
    if x > 0 {
      AndSelf(x / 2);
    }
  }
}