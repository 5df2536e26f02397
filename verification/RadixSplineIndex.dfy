/**
 The finished RadixSpline: segment search through the radix table, interpolation
 over exact rationals, and the search bound around the estimate.
 */
module RadixSplineIndex {
  import opened Bits
  import opened SplineBuilder

  // ---------------------------------------------------------------- std::lower_bound

  /** r splits s[first..last]: below it less holds, from it on less does not. */
  ghost predicate Splits<T>(s: seq<T>, first: nat, last: nat, key: int, less: (T, int) -> bool, r: nat) {
    && first <= r <= last <= |s|
    && (forall i :: first <= i < r ==> less(s[i], key))
    && (forall i :: r <= i < last ==> !less(s[i], key))
  }

  /** The range is partitioned by the comparison. */
  ghost predicate Partitioned<T>(s: seq<T>, first: nat, last: nat, key: int, less: (T, int) -> bool) {
    && first <= last <= |s|
    && forall i, j :: first <= i < j < last && less(s[j], key) ==> less(s[i], key)
  }

  method LowerBound<T>(s: seq<T>, first: nat, last: nat, key: int, less: (T, int) -> bool) returns (r: nat)
    requires Partitioned(s, first, last, key, less)
    ensures Splits(s, first, last, key, less, r)
  {
    r := first;
    var count := last - first;
    while count > 0
      invariant 0 <= count && first <= r && r + count <= last
      invariant forall i :: first <= i < r ==> less(s[i], key)
      invariant forall i :: r + count <= i < last ==> !less(s[i], key)
      decreases count
    {
      var step := count / 2;
      if less(s[r + step], key) {
        r, count := r + step + 1, count - step - 1;
      } else {
        count := step;
      }
    }
  }

  // ---------------------------------------------------------------- segments

  predicate CoordLess(c: Coord, key: int) {
    c.x < key
  }

  /** Number of leading points with a key below the given one. */
  function CountBelow(points: seq<Coord>, key: int): nat {
    if points == [] || points[0].x >= key then 0 else 1 + CountBelow(points[1..], key)
  }

  lemma {:induction false} CountBelowUnique(points: seq<Coord>, key: int, i: nat)
    requires i <= |points|
    requires forall j :: 0 <= j < i ==> points[j].x < key
    requires i < |points| ==> points[i].x >= key
    ensures CountBelow(points, key) == i
  {
    if i > 0 {
      CountBelowUnique(points[1..], key, i - 1);
    }
  }

  /** A finished spline over at least two distinct keys. */
  ghost predicate SplineValid(rs: RadixSpline) {
    && TableExact(rs) && Increasing(rs.points) && |rs.points| >= 2
    && rs.points[0] == Coord(rs.minKey, 0)
    && rs.points[|rs.points| - 1] == Coord(rs.maxKey, rs.numKeys - 1)
  }

  /** A key at or below the smallest one is answered without a segment, so also by the
      spline of an empty map. */
  ghost predicate Answers(rs: RadixSpline, key: nat) {
    SplineValid(rs) || key <= rs.minKey
  }

  lemma SegmentExists(points: seq<Coord>, key: int)
    requires Increasing(points) && |points| >= 2 && points[0].x < key <= points[|points| - 1].x
    ensures 1 <= CountBelow(points, key) < |points|
    ensures var i := CountBelow(points, key); points[i - 1].x < key <= points[i].x
  {
    var i := 1;
    while points[i].x < key
      invariant 1 <= i < |points| && points[i - 1].x < key
      decreases |points| - i
    {
      i := i + 1;
    }
    CountBelowUnique(points, key, i);
  }

  /** The radix table brackets the segment: points before begin lie below the key,
      points from end on lie above it. */
  lemma TableBrackets(rs: RadixSpline, key: nat)
    requires SplineValid(rs) && rs.minKey <= key <= rs.maxKey
    ensures var p := Prefix(rs.minKey, rs.numShiftBits, key);
            && p + 1 < |rs.radixTable|
            && rs.radixTable[p] <= rs.radixTable[p + 1] <= |rs.points|
            && (forall i :: 0 <= i < rs.radixTable[p] ==> rs.points[i].x < key)
            && (forall i :: rs.radixTable[p + 1] <= i < |rs.points| ==> key < rs.points[i].x)
  {
    var min, shift, p := rs.minKey, rs.numShiftBits, Prefix(rs.minKey, rs.numShiftBits, key);
    PrefixMonotone(min, shift, key, rs.maxKey);
    var begin, end := rs.radixTable[p], rs.radixTable[p + 1];
    assert Entry(min, shift, rs.points, begin, p) && Entry(min, shift, rs.points, end, p + 1);
    forall i | 0 <= i < begin
      ensures rs.points[i].x < key
    {
      if rs.points[i].x >= key {
        PrefixMonotone(min, shift, key, rs.points[i].x);
      }
    }
    forall i | end <= i < |rs.points|
      ensures key < rs.points[i].x
    {
      if rs.points[i].x <= key {
        PrefixMonotone(min, shift, rs.points[i].x, key);
      }
    }
    var clash := if end < |rs.points| then Prefix(min, shift, rs.points[end].x) else 0;
    if end < begin {
      assert false;
    }
  }

  /** Index of the point that ends the segment of the key: narrowed by the radix
      table, then linear or binary search; the answer is the global one. */
  method GetSplineSegment(rs: RadixSpline, key: nat) returns (index: nat)
    requires SplineValid(rs) && rs.minKey < key < rs.maxKey
    ensures index == CountBelow(rs.points, key)
    ensures 1 <= index < |rs.points| && rs.points[index - 1].x < key <= rs.points[index].x
  {
    TableBrackets(rs, key);
    SegmentExists(rs.points, key);
    hide Entry;
    hide Prefix;
    var prefix := Prefix(rs.minKey, rs.numShiftBits, key);
    var begin, end := rs.radixTable[prefix], rs.radixTable[prefix + 1];
    if end - begin < 32 {
      index := begin;
      while rs.points[index].x < key
        invariant begin <= index < |rs.points|
        invariant forall i :: 0 <= i < index ==> rs.points[i].x < key
        decreases |rs.points| - index
      {
        index := index + 1;
      }
    } else {
      index := LowerBound(rs.points, begin, end, key, CoordLess);
    }
    CountBelowUnique(rs.points, key, index);
  }

  // ---------------------------------------------------------------- interpolation

  /** The straight line through a and b, at key. */
  function LineAt(a: Coord, b: Coord, key: int): real
    requires a.x < b.x
  {
    var slope := (b.y - a.y) as real / (b.x - a.x) as real;
    (key - a.x) as real * slope + a.y as real
  }

  /** GetEstimatedPosition, with the segment found by counting. */
  function EstimatedPosition(rs: RadixSpline, key: nat): real
    requires key <= rs.minKey || (Increasing(rs.points) && |rs.points| >= 2)
    requires key <= rs.minKey || (rs.points[0].x == rs.minKey && rs.points[|rs.points| - 1].x == rs.maxKey)
  {
    if key <= rs.minKey then 0.0
    else if key >= rs.maxKey then (rs.numKeys - 1) as real
    else
      SegmentExists(rs.points, key);
      var i := CountBelow(rs.points, key);
      LineAt(rs.points[i - 1], rs.points[i], key)
  }

  method GetEstimatedPosition(rs: RadixSpline, key: nat) returns (estimate: real)
    requires Answers(rs, key)
    ensures estimate == EstimatedPosition(rs, key)
  {
    if key <= rs.minKey {
      return 0.0;
    }
    if key >= rs.maxKey {
      return (rs.numKeys - 1) as real;
    }
    var index := GetSplineSegment(rs, key);
    var down, up := rs.points[index - 1], rs.points[index];
    var xDiff, yDiff := (up.x - down.x) as real, (up.y - down.y) as real;
    var slope := yDiff / xDiff;
    estimate := (key - down.x) as real * slope + down.y as real;
  }

  // ---------------------------------------------------------------- lines over exact rationals

  lemma RealCancel(u: real, d: real)
    requires d > 0.0
    ensures (u / d) * d == u
  {
  }

  lemma IntProductReal(a: int, b: int)
    ensures (a * b) as real == a as real * b as real
  {
  }

  /** Scaled by the width of the segment, the line is an integer. */
  lemma LineScaled(a: Coord, b: Coord, key: int)
    requires a.x < b.x
    ensures (LineAt(a, b, key) - a.y as real) * (b.x - a.x) as real == ((key - a.x) * (b.y - a.y)) as real
  {
    var dx, dy, k := (b.x - a.x) as real, (b.y - a.y) as real, (key - a.x) as real;
    RealCancel(dy, dx);
    assert (k * (dy / dx)) * dx == k * ((dy / dx) * dx);
    IntProductReal(key - a.x, b.y - a.y);
  }

  lemma RealMulLt(d: real, x: real, y: real)
    requires d > 0.0 && x < y
    ensures x * d < y * d
  {
  }

  lemma RealScaleLe(x: real, y: real, d: real)
    requires d > 0.0 && x * d <= y * d
    ensures x <= y
  {
    if x > y {
      RealMulLt(d, y, x);
    }
  }

  /** Within, as a statement about the interpolated position. */
  lemma WithinIsErrorBound(a: Coord, b: Coord, p: Coord, e: nat)
    requires a.x < b.x && Within(a, b, p, e)
    ensures -(e as real) <= LineAt(a, b, p.x) - p.y as real <= e as real
  {
    var dx := (b.x - a.x) as real;
    var t := LineAt(a, b, p.x) - p.y as real;
    LineScaled(a, b, p.x);
    IntProductReal(p.y - a.y, b.x - a.x);
    var d := (p.x - a.x) * (b.y - a.y) - (p.y - a.y) * (b.x - a.x);
    ErrorScaled(LineAt(a, b, p.x), a.y as real, p.y as real, dx);
    assert t * dx == d as real;
    IntProductReal(e, b.x - a.x);
    RealScaleLe(t, e as real, dx);
    assert (-(e as real)) * dx == -(e as real * dx);
    RealScaleLe(-(e as real), t, dx);
  }

  lemma ErrorScaled(l: real, ay: real, py: real, dx: real)
    ensures (l - py) * dx == (l - ay) * dx - (py - ay) * dx
  {
  }

  /** On its segment the line stays between the end positions and rises. */
  lemma LineMonotone(a: Coord, b: Coord, k1: int, k2: int)
    requires a.x < b.x && a.y <= b.y && a.x <= k1 <= k2 <= b.x
    ensures a.y as real <= LineAt(a, b, k1) <= LineAt(a, b, k2) <= b.y as real
  {
    var dx := (b.x - a.x) as real;
    LineScaled(a, b, k1);
    LineScaled(a, b, k2);
    MulLe(b.y - a.y, 0, k1 - a.x);
    MulLe(b.y - a.y, k1 - a.x, k2 - a.x);
    MulLe(b.y - a.y, k2 - a.x, b.x - a.x);
    var l1, l2 := LineAt(a, b, k1) - a.y as real, LineAt(a, b, k2) - a.y as real;
    IntProductReal(b.y - a.y, b.x - a.x);
    RealScaleLe(0.0, l1, dx);
    RealScaleLe(l1, l2, dx);
    RealScaleLe(l2, (b.y - a.y) as real, dx);
  }

  // ---------------------------------------------------------------- main results

  /** Every point of the distribution is estimated within the maximal error, also when the
      largest key repeats and the clamped estimate is its last position. */
  lemma ErrorBound(rs: RadixSpline, cdf: seq<Coord>, k: nat)
    requires SplineValid(rs) && Increasing(cdf) && Approximates(rs.points, cdf, rs.maxError) && k < |cdf|
    ensures cdf[k].x >= 0
    ensures -(rs.maxError as real) <= EstimatedPosition(rs, cdf[k].x) - cdf[k].y as real <= rs.maxError as real
  {
    var p, n := cdf[k], |rs.points| - 1;
    assert cdf[0].x <= p.x <= cdf[|cdf| - 1].x;
    assert p.x == rs.minKey ==> k == 0;
    if p.x == rs.maxKey {
      assert Within(rs.points[n - 1], rs.points[n], p, rs.maxError);
      WithinIsErrorBound(rs.points[n - 1], rs.points[n], p, rs.maxError);
      LineEnds(rs.points[n - 1], rs.points[n]);
    } else if rs.minKey < p.x {
      SegmentExists(rs.points, p.x);
      var i := CountBelow(rs.points, p.x);
      assert Within(rs.points[i - 1], rs.points[i], p, rs.maxError);
      WithinIsErrorBound(rs.points[i - 1], rs.points[i], p, rs.maxError);
    }
  }

  lemma LineEnds(a: Coord, b: Coord)
    requires a.x < b.x
    ensures LineAt(a, b, b.x) == b.y as real
  {
    LineScaled(a, b, b.x);
    IntProductReal(b.x - a.x, b.y - a.y);
    var dx := (b.x - a.x) as real;
    RealScaleLe(LineAt(a, b, b.x) - a.y as real, (b.y - a.y) as real, dx);
    RealScaleLe((b.y - a.y) as real, LineAt(a, b, b.x) - a.y as real, dx);
  }

  lemma EstimateOnSegment(rs: RadixSpline, key: nat)
    requires SplineValid(rs) && rs.minKey < key < rs.maxKey
    ensures var i := CountBelow(rs.points, key);
            && 1 <= i < |rs.points|
            && rs.points[i - 1].y as real <= EstimatedPosition(rs, key) <= rs.points[i].y as real
  {
    SegmentExists(rs.points, key);
    var i := CountBelow(rs.points, key);
    LineMonotone(rs.points[i - 1], rs.points[i], key, key);
  }

  /** The estimate lies on the line through the two points around the key, by cross products. */
  lemma EstimateOnLine(rs: RadixSpline, key: nat, i: nat)
    requires SplineValid(rs) && 1 <= i < |rs.points| && rs.points[i - 1].x < key <= rs.points[i].x
    ensures var a, b := rs.points[i - 1], rs.points[i];
            (EstimatedPosition(rs, key) - a.y as real) * (b.x - a.x) as real == ((key - a.x) * (b.y - a.y)) as real
  {
    hide LineAt;
    hide TableExact;
    hide CountBelow;
    var a, b := rs.points[i - 1], rs.points[i];
    LineScaled(a, b, key);
    if key < rs.maxKey {
      CountBelowUnique(rs.points, key, i);
    } else {
      assert i == |rs.points| - 1;
      LineEnds(a, b);
    }
  }

  /** The estimate never falls as the key grows, across segments and at both ends. */
  lemma EstimateMonotone(rs: RadixSpline, k1: nat, k2: nat)
    requires SplineValid(rs) && k1 <= k2
    ensures 0.0 <= EstimatedPosition(rs, k1) <= EstimatedPosition(rs, k2) <= (rs.numKeys - 1) as real
  {
    hide TableExact;
    hide LineAt;
    if rs.minKey < k1 < rs.maxKey {
      EstimateOnSegment(rs, k1);
    }
    if rs.minKey < k2 < rs.maxKey {
      EstimateOnSegment(rs, k2);
    }
    if rs.minKey < k1 && k2 < rs.maxKey {
      SegmentExists(rs.points, k1);
      SegmentExists(rs.points, k2);
      var i, j := CountBelow(rs.points, k1), CountBelow(rs.points, k2);
      if i == j {
        LineMonotone(rs.points[i - 1], rs.points[i], k1, k2);
      }
    }
  }

  datatype SearchBound = SearchBound(begin: nat, end: nat)

  /** The estimate truncated to an index, widened by the error on both sides. */
  function BoundAround(rs: RadixSpline, estimate: nat): SearchBound {
    SearchBound(
      if estimate < rs.maxError then 0 else estimate - rs.maxError,
      if estimate + rs.maxError + 2 > rs.numKeys then rs.numKeys else estimate + rs.maxError + 2)
  }

  /** The search bound of a key. */
  function BoundFor(rs: RadixSpline, key: nat): (bound: SearchBound)
    requires Answers(rs, key)
    ensures bound.begin <= bound.end <= rs.numKeys
  {
    EstimateInRange(rs, key);
    BoundAround(rs, EstimatedPosition(rs, key).Floor)
  }

  lemma EstimateInRange(rs: RadixSpline, key: nat)
    requires Answers(rs, key)
    ensures EstimatedPosition(rs, key) >= 0.0
    ensures EstimatedPosition(rs, key).Floor <= if rs.numKeys == 0 then 0 else rs.numKeys - 1
  {
    if key > rs.minKey {
      EstimateMonotone(rs, key, key);
    }
  }

  method GetSearchBound(rs: RadixSpline, key: nat) returns (bound: SearchBound)
    requires Answers(rs, key)
    ensures EstimatedPosition(rs, key) >= 0.0
    ensures bound == BoundFor(rs, key)
    ensures var p := EstimatedPosition(rs, key).Floor;
            && bound.begin == (if p < rs.maxError then 0 else p - rs.maxError)
            && bound.end == (if p + rs.maxError + 2 > rs.numKeys then rs.numKeys else p + rs.maxError + 2)
  {
    EstimateInRange(rs, key);
    var position := GetEstimatedPosition(rs, key);
    bound := BoundAround(rs, position.Floor);
  }
}
