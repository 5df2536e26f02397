/**
 The RadixSpline builder: one pass over sorted keys, a greedy error corridor that
 picks the spline points, and a radix table over their prefixes. Coordinates are
 exact integers, so the orientation test against epsilon is a sign test.
 */
module SplineBuilder {
  import opened Bits

  /** A point of the cumulative distribution: key and position. */
  datatype Coord = Coord(x: int, y: int)

  // ---------------------------------------------------------------- geometry

  datatype Orientation = Collinear | CW | CCW

  function ComputeOrientation(dx1: int, dy1: int, dx2: int, dy2: int): Orientation {
    var expr := dy1 * dx2 - dy2 * dx1;
    if expr > 0 then CW else if expr < 0 then CCW else Collinear
  }

  /** Slope of b -> p at most slope of b -> q, by cross products; p and q lie right of b. */
  ghost predicate Below(b: Coord, p: Coord, q: Coord) {
    (p.y - b.y) * (q.x - b.x) <= (q.y - b.y) * (p.x - b.x)
  }

  function Turn(b: Coord, p: Coord, q: Coord): Orientation {
    ComputeOrientation(p.x - b.x, p.y - b.y, q.x - b.x, q.y - b.y)
  }

  /** The turn from b -> p to b -> q compares their slopes. */
  lemma TurnCompares(b: Coord, p: Coord, q: Coord)
    ensures Turn(b, p, q) == CW <==> !Below(b, p, q)
    ensures Turn(b, p, q) == CCW <==> !Below(b, q, p)
    ensures Below(b, p, q) || Below(b, q, p)
  {
    MulComm(p.y - b.y, q.x - b.x);
    MulComm(q.y - b.y, p.x - b.x);
  }

  lemma BelowTransitive(b: Coord, p: Coord, q: Coord, r: Coord)
    requires b.x < p.x && b.x < q.x && b.x < r.x
    requires Below(b, p, q) && Below(b, q, r)
    ensures Below(b, p, r)
  {
    CrossTransitive(p.y - b.y, p.x - b.x, q.y - b.y, q.x - b.x, r.y - b.y, r.x - b.x);
  }

  lemma CrossTransitive(y1: int, x1: int, y2: int, x2: int, y3: int, x3: int)
    requires x1 > 0 && x2 > 0 && x3 > 0
    requires y1 * x2 <= y2 * x1 && y2 * x3 <= y3 * x2
    ensures y1 * x3 <= y3 * x1
  {
    MulLe(x3, y1 * x2, y2 * x1);
    MulLe(x1, y2 * x3, y3 * x2);
    assert x3 * (y1 * x2) == (y1 * x3) * x2;
    assert x3 * (y2 * x1) == x1 * (y2 * x3);
    assert x1 * (y3 * x2) == (y3 * x1) * x2;
    if y1 * x3 > y3 * x1 {
      MulLe(x2, y3 * x1 + 1, y1 * x3);
    }
  }

  function Raised(p: Coord, dy: int): Coord {
    Coord(p.x, p.y + dy)
  }

  lemma BelowRaised(b: Coord, p: Coord, dy: int)
    requires b.x < p.x && 0 <= dy
    ensures Below(b, p, Raised(p, dy)) && Below(b, Raised(p, -dy), p)
  {
    MulLe(p.x - b.x, p.y - b.y, p.y + dy - b.y);
    MulLe(p.x - b.x, p.y - dy - b.y, p.y - b.y);
  }

  /** The straight line a -> b passes within e of point p, vertically. */
  ghost predicate Within(a: Coord, b: Coord, p: Coord, e: int) {
    var d := (p.x - a.x) * (b.y - a.y) - (p.y - a.y) * (b.x - a.x);
    -e * (b.x - a.x) <= d <= e * (b.x - a.x)
  }

  lemma WithinFromCorridor(a: Coord, b: Coord, p: Coord, e: int)
    requires Below(a, Raised(p, -e), b) && Below(a, b, Raised(p, e))
    ensures Within(a, b, p, e)
  {
    assert (p.y - e - a.y) * (b.x - a.x) == (p.y - a.y) * (b.x - a.x) - e * (b.x - a.x);
    assert (p.y + e - a.y) * (b.x - a.x) == (p.y - a.y) * (b.x - a.x) + e * (b.x - a.x);
  }

  lemma WithinEnds(a: Coord, b: Coord, e: int)
    requires a.x < b.x && 0 <= e
    ensures Within(a, b, a, e) && Within(a, b, b, e)
  {
    MulLe(b.x - a.x, 0, e);
  }

  // ---------------------------------------------------------------- corridor

  /** Both limits lie right of the last spline point b and bound every pending
      point: a line from b inside the limits passes within e of each of them. */
  ghost predicate Corridor(b: Coord, pending: seq<Coord>, lower: Coord, upper: Coord, e: nat) {
    && b.x < lower.x && b.x < upper.x
    && forall k :: 0 <= k < |pending| ==>
         && b.x < pending[k].x
         && Below(b, upper, Raised(pending[k], e))
         && Below(b, Raised(pending[k], -(e as int)), lower)
  }

  /** The previous point itself lies in the corridor, so it may become a spline point. */
  ghost predicate CandidateInside(b: Coord, pending: seq<Coord>, lower: Coord, upper: Coord) {
    && |pending| > 0
    && Below(b, lower, pending[|pending| - 1]) && Below(b, pending[|pending| - 1], upper)
  }

  lemma CandidateCovers(b: Coord, pending: seq<Coord>, lower: Coord, upper: Coord, e: nat)
    requires Corridor(b, pending, lower, upper, e) && CandidateInside(b, pending, lower, upper)
    ensures forall k :: 0 <= k < |pending| ==> Within(b, pending[|pending| - 1], pending[k], e)
  {
    var p := pending[|pending| - 1];
    forall k | 0 <= k < |pending|
      ensures Within(b, p, pending[k], e)
    {
      BelowTransitive(b, p, upper, Raised(pending[k], e));
      BelowTransitive(b, Raised(pending[k], -(e as int)), lower, p);
      WithinFromCorridor(b, p, pending[k], e);
    }
  }

  /** Within, as the two corridor tests. */
  lemma CorridorFromWithin(a: Coord, b: Coord, p: Coord, e: int)
    requires Within(a, b, p, e)
    ensures Below(a, Raised(p, -e), b) && Below(a, b, Raised(p, e))
  {
    assert (p.y - e - a.y) * (b.x - a.x) == (p.y - a.y) * (b.x - a.x) - e * (b.x - a.x);
    assert (p.y + e - a.y) * (b.x - a.x) == (p.y - a.y) * (b.x - a.x) + e * (b.x - a.x);
  }

  /** A closing point at or above the candidate is within e of every pending point exactly
      when it does not lie above the upper limit. */
  lemma CoversExactly(b: Coord, pending: seq<Coord>, lower: Coord, upper: Coord, e: nat, c: Coord)
    requires Corridor(b, pending, lower, upper, e) && CandidateInside(b, pending, lower, upper)
    requires UpperMet(pending, upper, e)
    requires c.x == pending[|pending| - 1].x && pending[|pending| - 1].y <= c.y
    ensures (forall k :: 0 <= k < |pending| ==> Within(b, c, pending[k], e)) <==> Below(b, c, upper)
  {
    var p := pending[|pending| - 1];
    BelowRaised(b, p, c.y - p.y);
    if Below(b, c, upper) {
      forall k | 0 <= k < |pending|
        ensures Within(b, c, pending[k], e)
      {
        BelowTransitive(b, c, upper, Raised(pending[k], e));
        BelowTransitive(b, Raised(pending[k], -(e as int)), lower, p);
        BelowTransitive(b, Raised(pending[k], -(e as int)), p, c);
        WithinFromCorridor(b, c, pending[k], e);
      }
    }
    var j :| 0 <= j < |pending| && upper == UpperFor(pending[j], e);
    if Within(b, c, pending[j], e) {
      CorridorFromWithin(b, c, pending[j], e);
    }
  }

  function UpperFor(p: Coord, e: nat): Coord {
    Raised(p, e)
  }

  /** position - max_error, clipped at zero. */
  function LowerFor(p: Coord, e: nat): Coord {
    Coord(p.x, if p.y < e then 0 else p.y - e)
  }

  lemma LimitsAroundPoint(b: Coord, p: Coord, e: nat)
    requires b.x < p.x && 0 <= p.y
    ensures Below(b, p, UpperFor(p, e)) && Below(b, LowerFor(p, e), p)
    ensures Below(b, Raised(p, -(e as int)), LowerFor(p, e))
  {
    BelowRaised(b, p, e);
    MulLe(p.x - b.x, LowerFor(p, e).y - b.y, p.y - b.y);
    MulLe(p.x - b.x, p.y - e - b.y, LowerFor(p, e).y - b.y);
  }

  lemma FreshCorridor(b: Coord, p: Coord, e: nat)
    requires b.x < p.x && 0 <= p.y
    ensures Corridor(b, [p], LowerFor(p, e), UpperFor(p, e), e)
    ensures CandidateInside(b, [p], LowerFor(p, e), UpperFor(p, e))
  {
    LimitsAroundPoint(b, p, e);
    BelowRaised(b, UpperFor(p, e), 0);
  }

  /** A point strictly inside tightens the corridor and becomes the candidate. */
  lemma TightenCorridor(b: Coord, pending: seq<Coord>, lower: Coord, upper: Coord, e: nat, c: Coord)
    requires Corridor(b, pending, lower, upper, e) && b.x < c.x && 0 <= c.y
    requires Below(b, lower, c) && Below(b, c, upper)
    ensures var upper' := if Below(b, upper, UpperFor(c, e)) then upper else UpperFor(c, e);
            var lower' := if Below(b, LowerFor(c, e), lower) then lower else LowerFor(c, e);
            Corridor(b, pending + [c], lower', upper', e) && CandidateInside(b, pending + [c], lower', upper')
  {
    var upper' := if Below(b, upper, UpperFor(c, e)) then upper else UpperFor(c, e);
    var lower' := if Below(b, LowerFor(c, e), lower) then lower else LowerFor(c, e);
    LimitsAroundPoint(b, c, e);
    assert Below(b, upper', upper) && Below(b, lower, lower');
    forall k | 0 <= k < |pending|
      ensures Below(b, upper', Raised(pending[k], e)) && Below(b, Raised(pending[k], -(e as int)), lower')
    {
      BelowTransitive(b, upper', upper, Raised(pending[k], e));
      BelowTransitive(b, Raised(pending[k], -(e as int)), lower, lower');
    }
    BelowTransitive(b, Raised(c, -(e as int)), LowerFor(c, e), lower');
  }

  // ---------------------------------------------------------------- radix table

  /** (key - min_key_) >> num_shift_bits_. */
  function Prefix(minKey: nat, shift: nat, x: int): nat
    requires minKey <= x
  {
    Shr(x - minKey, shift)
  }

  lemma PrefixMonotone(minKey: nat, shift: nat, x: int, y: int)
    requires minKey <= x <= y
    ensures Prefix(minKey, shift, x) <= Prefix(minKey, shift, y)
  {
    ShrMonotone(x - minKey, y - minKey, shift);
  }

  lemma ShrMonotone(a: nat, b: nat, j: nat)
    requires a <= b
    ensures Shr(a, j) <= Shr(b, j)
  {
    ShrLow(a, j);
    ShrLow(b, j);
    if Shr(a, j) > Shr(b, j) {
      MulLe(Pow2(j), Shr(b, j) + 1, Shr(a, j));
    }
  }

  ghost predicate KeysFrom(minKey: nat, points: seq<Coord>) {
    forall i :: 0 <= i < |points| ==> minKey <= points[i].x
  }

  /** c is the number of spline points whose prefix lies below p. */
  ghost predicate Entry(minKey: nat, shift: nat, points: seq<Coord>, c: nat, p: nat)
    requires KeysFrom(minKey, points)
  {
    && c <= |points|
    && (forall i :: 0 <= i < c ==> Prefix(minKey, shift, points[i].x) < p)
    && (forall i :: c <= i < |points| ==> p <= Prefix(minKey, shift, points[i].x))
  }

  /** Strictly increasing keys and non-negative, strictly increasing positions. */
  ghost predicate Increasing(points: seq<Coord>) {
    && (forall i :: 0 <= i < |points| ==> 0 <= points[i].y)
    && (forall i, j :: 0 <= i < j < |points| ==> points[i].x < points[j].x && points[i].y < points[j].y)
  }

  /** Returns 0 when all distinguishing bits fit the table, else how many to drop. */
  function NumShiftBits(w: nat, diff: nat, numRadixBits: nat): nat
    requires 0 < diff < Pow2(w)
  {
    var used := FloorLog2(diff) + 1;
    if used < numRadixBits then 0 else used - numRadixBits
  }

  /** Shifted, the greatest difference fits the radix bits; shifted by one bit less, it does not. */
  lemma PrefixBound(w: nat, diff: nat, numRadixBits: nat)
    requires 0 < diff < Pow2(w)
    ensures var shift := NumShiftBits(w, diff, numRadixBits);
            && Shr(diff, shift) < Pow2(numRadixBits)
            && (shift > 0 ==> Shr(diff, shift - 1) >= Pow2(numRadixBits))
  {
    hide *;
    var used := FloorLog2(diff) + 1;
    var shift := NumShiftBits(w, diff, numRadixBits);
    ShiftIs(w, diff, numRadixBits);
    BitsUsed(diff, used);
    if used < numRadixBits {
      Pow2Monotone(used, numRadixBits);
      ShrZero(diff);
    } else {
      ShrRange(diff, shift, numRadixBits);
      if shift > 0 {
        ShrAtLeast(diff, shift - 1, numRadixBits);
      }
    }
  }

  lemma ShiftIs(w: nat, diff: nat, numRadixBits: nat)
    requires 0 < diff < Pow2(w)
    ensures var used := FloorLog2(diff) + 1;
            NumShiftBits(w, diff, numRadixBits) == if used < numRadixBits then 0 else used - numRadixBits
  {
    hide FloorLog2;
    hide Pow2;
  }

  lemma ShrAtLeast(val: nat, b: nat, c: nat)
    requires val >= Pow2(b + c)
    ensures Shr(val, b) >= Pow2(c)
  {
    Pow2Add(b, c);
    ShrLow(val, b);
    if Shr(val, b) < Pow2(c) {
      MulLe(Pow2(b), Shr(val, b) + 1, Pow2(c));
    }
  }

  lemma BitsUsed(diff: nat, used: nat)
    requires 0 < diff && used == FloorLog2(diff) + 1
    ensures Pow2(used - 1) <= diff < Pow2(used)
  {
  }

  // ---------------------------------------------------------------- the data

  /** First occurrences: each new key with its position in the dense array. */
  ghost function Cdf(keys: seq<nat>): seq<Coord> {
    if |keys| == 0 then []
    else if |keys| > 1 && keys[|keys| - 1] == keys[|keys| - 2] then Cdf(keys[..|keys| - 1])
    else Cdf(keys[..|keys| - 1]) + [Coord(keys[|keys| - 1], |keys| - 1)]
  }

  ghost predicate Sorted(keys: seq<nat>) {
    forall i, j :: 0 <= i < j < |keys| ==> keys[i] <= keys[j]
  }

  lemma {:induction false} CdfEnds(keys: seq<nat>)
    requires keys != []
    ensures Cdf(keys) != [] && Cdf(keys)[0] == Coord(keys[0], 0)
    ensures var last := Cdf(keys)[|Cdf(keys)| - 1]; last.x == keys[|keys| - 1] && last.y < |keys|
  {
    if |keys| > 1 {
      CdfEnds(keys[..|keys| - 1]);
    } else {
      assert keys[..0] == [];
    }
  }

  lemma {:induction false} CdfIncreasing(keys: seq<nat>)
    requires Sorted(keys)
    ensures Increasing(Cdf(keys))
  {
    if |keys| == 1 {
      assert keys[..0] == [];
      SingletonIncreasing(Coord(keys[0], 0));
    } else if |keys| > 1 {
      var init := keys[..|keys| - 1];
      CdfIncreasing(init);
      CdfEnds(init);
      if init[|init| - 1] != keys[|keys| - 1] {
        IncreasingAppend(Cdf(init), Coord(keys[|keys| - 1], |init|));
      }
    }
  }

  lemma SingletonIncreasing(p: Coord)
    requires 0 <= p.y
    ensures Increasing([p])
  {
  }

  lemma IncreasingAppend(points: seq<Coord>, p: Coord)
    requires Increasing(points) && 0 <= p.y
    requires points != [] ==> points[|points| - 1].x < p.x && points[|points| - 1].y < p.y
    ensures Increasing(points + [p])
  {
  }

  ghost predicate Distinct(keys: seq<nat>) {
    forall i, j :: 0 <= i < j < |keys| ==> keys[i] < keys[j]
  }

  /** The points are exactly the places where a key first occurs. */
  lemma {:induction false} CdfExact(keys: seq<nat>, p: Coord)
    ensures p in Cdf(keys) <==>
              0 <= p.y < |keys| && p.x == keys[p.y] && (p.y > 0 ==> keys[p.y - 1] != keys[p.y])
  {
    if keys != [] {
      var init := keys[..|keys| - 1];
      CdfExact(init, p);
      assert forall i :: 0 <= i < |init| ==> init[i] == keys[i];
    }
  }

  /** With distinct keys every key is a point, at its index. */
  lemma {:induction false} CdfDistinct(keys: seq<nat>)
    requires Distinct(keys)
    ensures |Cdf(keys)| == |keys|
    ensures forall i :: 0 <= i < |keys| ==> Cdf(keys)[i] == Coord(keys[i], i)
  {
    if keys != [] {
      CdfDistinct(keys[..|keys| - 1]);
    }
  }

  // ---------------------------------------------------------------- the spline

  /** Spline points chosen at increasing indices of the distribution, starting at 0. */
  ghost predicate Knots(cdf: seq<Coord>, points: seq<Coord>, knots: seq<nat>) {
    && |knots| == |points|
    && (|knots| > 0 ==> knots[0] == 0)
    && (forall i :: 0 <= i < |knots| ==> knots[i] < |cdf| && points[i] == cdf[knots[i]])
    && (forall i, j :: 0 <= i < j < |knots| ==> knots[i] < knots[j])
  }

  /** Between consecutive knots the spline passes within e of every point. */
  ghost predicate Spanned(cdf: seq<Coord>, knots: seq<nat>, e: nat)
    requires forall i :: 0 <= i < |knots| ==> knots[i] < |cdf|
  {
    forall i, k :: 0 <= i < |knots| - 1 && knots[i] <= k <= knots[i + 1] ==>
      Within(cdf[knots[i]], cdf[knots[i + 1]], cdf[k], e)
  }

  /** The error bound, stated on the finished spline: each segment passes within e of
      every point of the distribution that lies over it. */
  ghost predicate Approximates(points: seq<Coord>, cdf: seq<Coord>, e: nat) {
    && Increasing(points) && |points| >= 2 && |cdf| >= 2
    && points[0] == cdf[0] && points[|points| - 1].x == cdf[|cdf| - 1].x
    && forall j, k :: 0 < j < |points| && 0 <= k < |cdf| && points[j - 1].x <= cdf[k].x <= points[j].x ==>
         Within(points[j - 1], points[j], cdf[k], e)
  }

  lemma KnotsIncreasing(cdf: seq<Coord>, points: seq<Coord>, knots: seq<nat>)
    requires Increasing(cdf) && Knots(cdf, points, knots)
    ensures Increasing(points)
  {
  }

  /** Every point from b on, the spline point before the last one, is within e of the line
      to the closing point c. */
  ghost predicate Closes(cdf: seq<Coord>, last: nat, c: Coord, e: nat) {
    forall k :: last < k < |cdf| ==> Within(cdf[last], c, cdf[k], e)
  }

  /** A spline whose segments so far are within e, closed by a point at the last key, keeps
      the bound exactly when the closing segment does. */
  lemma ClosingApproximates(cdf: seq<Coord>, points: seq<Coord>, knots: seq<nat>, e: nat, c: Coord)
    requires Increasing(cdf) && Knots(cdf, points, knots) && Spanned(cdf, knots, e)
    requires |knots| >= 1 && knots[|knots| - 1] < |cdf| - 1
    requires c.x == cdf[|cdf| - 1].x && cdf[|cdf| - 1].y <= c.y
    ensures Approximates(points + [c], cdf, e) <==> Closes(cdf, knots[|knots| - 1], c, e)
  {
    var last := knots[|knots| - 1];
    var closed := points + [c];
    KnotsIncreasing(cdf, points, knots);
    IncreasingAppend(points, c);
    WithinEnds(cdf[last], c, e);
    hide Within;
    hide Spanned;
    if Closes(cdf, last, c, e) {
      forall j, k | 0 < j < |closed| && 0 <= k < |cdf| && closed[j - 1].x <= cdf[k].x <= closed[j].x
        ensures Within(closed[j - 1], closed[j], cdf[k], e)
      {
        SegmentWithin(cdf, points, knots, e, c, j, k);
      }
    }
    if Approximates(closed, cdf, e) {
      ApproximatesCloses(cdf, points, last, e, c);
    }
  }

  /** The last segment of an approximation covers the points behind the last spline point. */
  lemma ApproximatesCloses(cdf: seq<Coord>, points: seq<Coord>, last: nat, e: nat, c: Coord)
    requires Increasing(cdf) && |points| >= 1 && last < |cdf| && points[|points| - 1] == cdf[last]
    requires Approximates(points + [c], cdf, e)
    ensures Closes(cdf, last, c, e)
  {
    hide Within;
    var closed := points + [c];
    assert closed[|points| - 1] == cdf[last] && closed[|points|] == c;
  }

  lemma SegmentWithin(cdf: seq<Coord>, points: seq<Coord>, knots: seq<nat>, e: nat, c: Coord, j: nat, k: nat)
    requires Increasing(cdf) && Knots(cdf, points, knots) && Spanned(cdf, knots, e)
    requires |knots| >= 1 && Closes(cdf, knots[|knots| - 1], c, e) && cdf[knots[|knots| - 1]].x < c.x
    requires 0 < j <= |points| && k < |cdf|
    requires (points + [c])[j - 1].x <= cdf[k].x <= (points + [c])[j].x
    ensures Within((points + [c])[j - 1], (points + [c])[j], cdf[k], e)
  {
    var i := j - 1;
    assert knots[i] <= k;
    if j < |points| {
      assert k <= knots[i + 1];
      assert Within(cdf[knots[i]], cdf[knots[i + 1]], cdf[k], e);
    } else {
      WithinEnds(cdf[knots[i]], c, e);
    }
  }

  // ---------------------------------------------------------------- greediness

  /** The line b -> c passes over p at the error or further away; below, the position less the
      error counts as 0 at least. */
  ghost predicate Escapes(b: Coord, p: Coord, c: Coord, e: nat) {
    || (c.y - b.y) * (p.x - b.x) >= (p.y + e - b.y) * (c.x - b.x)
    || (c.y - b.y) * (p.x - b.x) <= ((if p.y < e then 0 else p.y - e) - b.y) * (c.x - b.x)
  }

  /** After a spline point at index b, point m has to become the next one: the line from b to
      the point behind m escapes some point between. */
  ghost predicate Forced(cdf: seq<Coord>, b: nat, m: nat, e: nat) {
    b < m && m + 1 < |cdf| && exists j :: b < j <= m && Escapes(cdf[b], cdf[j], cdf[m + 1], e)
  }

  /** No point between b and m is forced. */
  ghost predicate Free(cdf: seq<Coord>, b: nat, m: int, e: nat) {
    forall k :: b < k < m ==> !Forced(cdf, b, k, e)
  }

  /** Every knot but the first is forced, and is the first forced one behind its predecessor. */
  ghost predicate Greedy(cdf: seq<Coord>, knots: seq<nat>, e: nat) {
    && (forall i :: 0 < i < |knots| ==> Forced(cdf, knots[i - 1], knots[i], e) && Free(cdf, knots[i - 1], knots[i], e))
    && (knots != [] ==> Free(cdf, knots[|knots| - 1], |cdf| - 1, e))
  }

  /** The points of a spline before the closing one are the greedy choice. */
  ghost predicate GreedyPoints(points: seq<Coord>, cdf: seq<Coord>, e: nat) {
    && |points| >= 2
    && exists knots: seq<nat> :: Knots(cdf, points[..|points| - 1], knots) && Greedy(cdf, knots, e)
  }

  /** Greedy knots are determined by the distribution and the error. */
  lemma {:induction false} GreedyAgree(cdf: seq<Coord>, ks: seq<nat>, ls: seq<nat>, e: nat, i: nat)
    requires Greedy(cdf, ks, e) && Greedy(cdf, ls, e) && i < |ks| && i < |ls| && ks[0] == ls[0]
    ensures ks[i] == ls[i]
  {
    if i > 0 {
      GreedyAgree(cdf, ks, ls, e, i - 1);
      hide Forced;
      assert Forced(cdf, ks[i - 1], ks[i], e) && Forced(cdf, ls[i - 1], ls[i], e);
      ForcedRange(cdf, ks[i - 1], ks[i], e);
      ForcedRange(cdf, ls[i - 1], ls[i], e);
    }
  }

  lemma ForcedRange(cdf: seq<Coord>, b: nat, m: nat, e: nat)
    requires Forced(cdf, b, m, e)
    ensures b < m < |cdf| - 1
  {
  }

  lemma GreedyNoLonger(cdf: seq<Coord>, ks: seq<nat>, ls: seq<nat>, e: nat)
    requires Greedy(cdf, ks, e) && Greedy(cdf, ls, e) && ks != [] && ls != [] && ks[0] == ls[0]
    ensures |ls| <= |ks|
  {
    hide Forced;
    var n := |ks|;
    if |ls| > n {
      GreedyAgree(cdf, ks, ls, e, n - 1);
      assert Forced(cdf, ls[n - 1], ls[n], e);
      ForcedRange(cdf, ls[n - 1], ls[n], e);
    }
  }

  /** Two splines made greedily for one distribution and error have the same points before the
      closing one. */
  lemma GreedyUnique(cdf: seq<Coord>, ps: seq<Coord>, qs: seq<Coord>, e: nat)
    requires GreedyPoints(ps, cdf, e) && GreedyPoints(qs, cdf, e)
    ensures ps[..|ps| - 1] == qs[..|qs| - 1]
  {
    var ks: seq<nat> :| Knots(cdf, ps[..|ps| - 1], ks) && Greedy(cdf, ks, e);
    var ls: seq<nat> :| Knots(cdf, qs[..|qs| - 1], ls) && Greedy(cdf, ls, e);
    GreedyNoLonger(cdf, ks, ls, e);
    GreedyNoLonger(cdf, ls, ks, e);
    forall i | 0 <= i < |ks|
      ensures ks[i] == ls[i]
    {
      GreedyAgree(cdf, ks, ls, e, i);
    }
  }

  // ---------------------------------------------------------------- invariant of the pass

  /** The upper limit is that of some pending point. */
  ghost predicate UpperMet(pending: seq<Coord>, upper: Coord, e: nat) {
    exists j :: 0 <= j < |pending| && upper == UpperFor(pending[j], e)
  }

  /** The state of the greedy pass after the points of cdf. */
  ghost predicate Curve(cdf: seq<Coord>, points: seq<Coord>, knots: seq<nat>, lower: Coord, upper: Coord, e: nat) {
    && |cdf| > 0 && |points| > 0 && Increasing(cdf)
    && Knots(cdf, points, knots) && Spanned(cdf, knots, e)
    && var last := knots[|knots| - 1];
       if |cdf| == 1 then |points| == 1
       else
         && last < |cdf| - 1
         && Corridor(cdf[last], cdf[last + 1..], lower, upper, e)
         && CandidateInside(cdf[last], cdf[last + 1..], lower, upper)
         && UpperMet(cdf[last + 1..], upper, e)
  }

  lemma UpperFresh(c: Coord, e: nat)
    ensures UpperMet([c], UpperFor(c, e), e)
  {
    assert [c][0] == c;
  }

  lemma UpperKept(pending: seq<Coord>, upper: Coord, e: nat, c: Coord)
    requires UpperMet(pending, upper, e)
    ensures UpperMet(pending + [c], upper, e) && UpperMet(pending + [c], UpperFor(c, e), e)
  {
    var j :| 0 <= j < |pending| && upper == UpperFor(pending[j], e);
    assert (pending + [c])[j] == pending[j] && (pending + [c])[|pending|] == c;
  }

  ghost predicate LowerMet(pending: seq<Coord>, lower: Coord, e: nat) {
    exists j :: 0 <= j < |pending| && lower == LowerFor(pending[j], e)
  }

  /** The limits are the lowest upper and the highest lower one of the pending points. */
  ghost predicate Tight(b: Coord, pending: seq<Coord>, lower: Coord, upper: Coord, e: nat) {
    && UpperMet(pending, upper, e) && LowerMet(pending, lower, e)
    && forall k :: 0 <= k < |pending| ==>
         && b.x < pending[k].x
         && Below(b, upper, UpperFor(pending[k], e)) && Below(b, LowerFor(pending[k], e), lower)
  }

  /** Some pending point is escaped exactly when the new point does not lie strictly between the
      limits. */
  lemma EscapesIff(b: Coord, pending: seq<Coord>, lower: Coord, upper: Coord, e: nat, c: Coord)
    requires Tight(b, pending, lower, upper, e) && b.x < c.x
    ensures (exists j :: 0 <= j < |pending| && Escapes(b, pending[j], c, e))
            <==> Below(b, upper, c) || Below(b, c, lower)
  {
    var i :| 0 <= i < |pending| && upper == UpperFor(pending[i], e);
    var l :| 0 <= l < |pending| && lower == LowerFor(pending[l], e);
    forall j | 0 <= j < |pending|
      ensures Escapes(b, pending[j], c, e)
              <==> Below(b, UpperFor(pending[j], e), c) || Below(b, c, LowerFor(pending[j], e))
    {
    }
    hide Escapes;
    forall j | 0 <= j < |pending| && Escapes(b, pending[j], c, e)
      ensures Below(b, upper, c) || Below(b, c, lower)
    {
      if Below(b, UpperFor(pending[j], e), c) {
        BelowTransitive(b, upper, UpperFor(pending[j], e), c);
      } else {
        BelowTransitive(b, c, LowerFor(pending[j], e), lower);
      }
    }
  }

  lemma TightFresh(b: Coord, c: Coord, e: nat)
    requires b.x < c.x
    ensures Tight(b, [c], LowerFor(c, e), UpperFor(c, e), e)
  {
    assert [c][0] == c;
  }

  lemma TightMore(b: Coord, pending: seq<Coord>, lower: Coord, upper: Coord, e: nat, c: Coord)
    requires Tight(b, pending, lower, upper, e) && b.x < c.x
    ensures var upper' := if Below(b, upper, UpperFor(c, e)) then upper else UpperFor(c, e);
            var lower' := if Below(b, LowerFor(c, e), lower) then lower else LowerFor(c, e);
            Tight(b, pending + [c], lower', upper', e)
  {
    var upper' := if Below(b, upper, UpperFor(c, e)) then upper else UpperFor(c, e);
    var lower' := if Below(b, LowerFor(c, e), lower) then lower else LowerFor(c, e);
    var i :| 0 <= i < |pending| && upper == UpperFor(pending[i], e);
    var l :| 0 <= l < |pending| && lower == LowerFor(pending[l], e);
    UpperKept(pending, upper, e, c);
    assert (pending + [c])[l] == pending[l] && (pending + [c])[|pending|] == c;
    assert Below(b, upper', upper) && Below(b, lower, lower');
    forall k | 0 <= k < |pending|
      ensures Below(b, upper', UpperFor(pending[k], e)) && Below(b, LowerFor(pending[k], e), lower')
    {
      BelowTransitive(b, upper', upper, UpperFor(pending[k], e));
      BelowTransitive(b, LowerFor(pending[k], e), lower, lower');
    }
  }

  /** The knots so far are greedy, and the limits tell whether the newest point is forced. */
  ghost predicate Drawn(cdf: seq<Coord>, knots: seq<nat>, lower: Coord, upper: Coord, e: nat) {
    && knots != [] && Greedy(cdf, knots, e)
    && var last := knots[|knots| - 1];
       |cdf| > 1 ==> last < |cdf| - 1 && Tight(cdf[last], cdf[last + 1..], lower, upper, e)
  }

  /** With the next point c, the newest point is forced exactly when c does not lie strictly
      between the limits. */
  lemma ForcedIff(cdf: seq<Coord>, knots: seq<nat>, lower: Coord, upper: Coord, e: nat, c: Coord)
    requires Drawn(cdf, knots, lower, upper, e) && |cdf| > 1 && cdf[knots[|knots| - 1]].x < c.x
    ensures var last := knots[|knots| - 1];
            Forced(cdf + [c], last, |cdf| - 1, e) <==> Below(cdf[last], upper, c) || Below(cdf[last], c, lower)
  {
    hide Greedy;
    var last := knots[|knots| - 1];
    var pending := cdf[last + 1..];
    EscapesIff(cdf[last], pending, lower, upper, e, c);
    hide Tight;
    hide Escapes;
    hide Below;
    forall j | last < j <= |cdf| - 1
      ensures (cdf + [c])[j] == pending[j - last - 1]
    {
    }
    forall j | 0 <= j < |pending|
      ensures (cdf + [c])[j + last + 1] == pending[j]
    {
    }
  }

  /** Forced points stay forced, and free ones free, when the distribution goes on. */
  lemma ForcedStays(cdf: seq<Coord>, b: nat, m: nat, e: nat, c: Coord)
    requires m < |cdf| - 1
    ensures Forced(cdf + [c], b, m, e) <==> Forced(cdf, b, m, e)
  {
    hide Escapes;
    if b < m {
      assert (cdf + [c])[m + 1] == cdf[m + 1] && (cdf + [c])[b] == cdf[b];
      assert forall j :: b < j <= m ==> (cdf + [c])[j] == cdf[j];
    }
  }

  lemma FreeStays(cdf: seq<Coord>, b: nat, m: int, e: nat, c: Coord)
    requires Free(cdf, b, m, e) && m <= |cdf| - 1
    ensures Free(cdf + [c], b, m, e)
  {
    hide Forced;
    forall k | b < k < m
      ensures !Forced(cdf + [c], b, k, e)
    {
      ForcedStays(cdf, b, k, e, c);
    }
  }

  lemma GreedyStays(cdf: seq<Coord>, knots: seq<nat>, e: nat, c: Coord)
    requires Greedy(cdf, knots, e)
    ensures forall i :: 0 < i < |knots| ==>
              Forced(cdf + [c], knots[i - 1], knots[i], e) && Free(cdf + [c], knots[i - 1], knots[i], e)
    ensures knots != [] ==> Free(cdf + [c], knots[|knots| - 1], |cdf| - 1, e)
  {
    hide Forced;
    hide Free;
    forall i | 0 < i < |knots|
      ensures Forced(cdf + [c], knots[i - 1], knots[i], e) && Free(cdf + [c], knots[i - 1], knots[i], e)
    {
      ForcedRange(cdf, knots[i - 1], knots[i], e);
      ForcedStays(cdf, knots[i - 1], knots[i], e, c);
      FreeStays(cdf, knots[i - 1], knots[i], e, c);
    }
    if knots != [] {
      FreeStays(cdf, knots[|knots| - 1], |cdf| - 1, e, c);
    }
  }

  lemma FreeMore(cdf: seq<Coord>, b: nat, m: nat, e: nat)
    requires Free(cdf, b, m, e) && (b < m ==> !Forced(cdf, b, m, e))
    ensures Free(cdf, b, m + 1, e)
  {
    hide Forced;
  }

  lemma DrawnFirst(p: Coord, lower: Coord, upper: Coord, e: nat)
    ensures Drawn([p], [0], lower, upper, e)
  {
  }

  lemma DrawnSecond(cdf: seq<Coord>, knots: seq<nat>, l: Coord, u: Coord, e: nat, c: Coord)
    requires Drawn(cdf, knots, l, u, e) && |cdf| == 1 && knots == [0] && cdf[0].x < c.x
    ensures Drawn(cdf + [c], knots, LowerFor(c, e), UpperFor(c, e), e)
  {
    assert (cdf + [c])[1..] == [c];
    TightFresh(cdf[0], c, e);
    hide Tight;
  }

  lemma DrawnKeep(cdf: seq<Coord>, knots: seq<nat>, lower: Coord, upper: Coord, e: nat, c: Coord)
    requires Drawn(cdf, knots, lower, upper, e) && |cdf| > 1 && cdf[knots[|knots| - 1]].x < c.x
    requires var b := cdf[knots[|knots| - 1]]; !Below(b, upper, c) && !Below(b, c, lower)
    ensures var b := cdf[knots[|knots| - 1]];
            var upper' := if Below(b, upper, UpperFor(c, e)) then upper else UpperFor(c, e);
            var lower' := if Below(b, LowerFor(c, e), lower) then lower else LowerFor(c, e);
            Drawn(cdf + [c], knots, lower', upper', e)
  {
    var last := knots[|knots| - 1];
    ForcedIff(cdf, knots, lower, upper, e, c);
    TightMore(cdf[last], cdf[last + 1..], lower, upper, e, c);
    hide Tight;
    hide Forced;
    hide Below;
    GreedyStays(cdf, knots, e, c);
    FreeMore(cdf + [c], last, |cdf| - 1, e);
    hide Free;
    assert (cdf + [c])[last + 1..] == cdf[last + 1..] + [c];
  }

  lemma DrawnCut(cdf: seq<Coord>, knots: seq<nat>, lower: Coord, upper: Coord, e: nat, c: Coord)
    requires Drawn(cdf, knots, lower, upper, e) && |cdf| > 1
    requires cdf[knots[|knots| - 1]].x < c.x && cdf[|cdf| - 1].x < c.x
    requires var b := cdf[knots[|knots| - 1]]; Below(b, upper, c) || Below(b, c, lower)
    ensures Drawn(cdf + [c], knots + [|cdf| - 1], LowerFor(c, e), UpperFor(c, e), e)
  {
    var last := knots[|knots| - 1];
    ForcedIff(cdf, knots, lower, upper, e, c);
    TightFresh(cdf[|cdf| - 1], c, e);
    hide Tight;
    hide Forced;
    hide Below;
    GreedyStays(cdf, knots, e, c);
    var more := knots + [|cdf| - 1];
    assert Free(cdf + [c], |cdf| - 1, |cdf|, e);
    hide Free;
    forall i | 0 < i < |more|
      ensures Forced(cdf + [c], more[i - 1], more[i], e) && Free(cdf + [c], more[i - 1], more[i], e)
    {
    }
    assert (cdf + [c])[|cdf|..] == [c];
  }

  lemma LastKnot(cdf: seq<Coord>, points: seq<Coord>, knots: seq<nat>, l: Coord, u: Coord, e: nat)
    requires Curve(cdf, points, knots, l, u, e) && |cdf| > 1
    ensures points != [] && points[|points| - 1].x < cdf[|cdf| - 1].x && points[|points| - 1].y < cdf[|cdf| - 1].y
    ensures knots != [] && knots[|knots| - 1] < |cdf| && points[|points| - 1] == cdf[knots[|knots| - 1]]
  {
  }

  lemma FirstKnot(cdf: seq<Coord>, points: seq<Coord>, knots: seq<nat>, l: Coord, u: Coord, e: nat)
    requires Curve(cdf, points, knots, l, u, e) && |cdf| == 1
    ensures knots == [0]
  {
  }

  /** Seen from the last spline point, c lies strictly above the lower and strictly below the
      upper limit. */
  ghost predicate Between(points: seq<Coord>, lower: Coord, upper: Coord, c: Coord) {
    && points != []
    && var b := points[|points| - 1];
       && (c.y - b.y) * (upper.x - b.x) < (upper.y - b.y) * (c.x - b.x)
       && (lower.y - b.y) * (c.x - b.x) < (c.y - b.y) * (lower.x - b.x)
  }

  lemma BetweenIsStrict(points: seq<Coord>, lower: Coord, upper: Coord, c: Coord)
    requires points != []
    ensures var b := points[|points| - 1];
            Between(points, lower, upper, c) <==> !Below(b, upper, c) && !Below(b, c, lower)
  {
  }

  lemma CurveFirst(p: Coord, e: nat, l: Coord, u: Coord)
    requires 0 <= p.y
    ensures Curve([p], [p], [0], l, u, e)
  {
    SingletonIncreasing(p);
  }

  lemma CurveSecond(cdf: seq<Coord>, points: seq<Coord>, knots: seq<nat>, l: Coord, u: Coord, e: nat, c: Coord)
    requires Curve(cdf, points, knots, l, u, e) && |cdf| == 1
    requires cdf[0].x < c.x && cdf[0].y < c.y
    ensures Curve(cdf + [c], points, knots, LowerFor(c, e), UpperFor(c, e), e)
  {
    IncreasingAppend(cdf, c);
    assert (cdf + [c])[1..] == [c];
    FreshCorridor(cdf[0], c, e);
    UpperFresh(c, e);
  }

  lemma CurveKeep(cdf: seq<Coord>, points: seq<Coord>, knots: seq<nat>, lower: Coord, upper: Coord, e: nat, c: Coord)
    requires Curve(cdf, points, knots, lower, upper, e) && |cdf| > 1
    requires cdf[|cdf| - 1].x < c.x && cdf[|cdf| - 1].y < c.y
    requires var b := points[|points| - 1]; Below(b, lower, c) && Below(b, c, upper)
    ensures var b := points[|points| - 1];
            var upper' := if Below(b, upper, UpperFor(c, e)) then upper else UpperFor(c, e);
            var lower' := if Below(b, LowerFor(c, e), lower) then lower else LowerFor(c, e);
            Curve(cdf + [c], points, knots, lower', upper', e)
  {
    var last := knots[|knots| - 1];
    var pending := cdf[last + 1..];
    IncreasingAppend(cdf, c);
    assert (cdf + [c])[last + 1..] == pending + [c];
    TightenCorridor(cdf[last], pending, lower, upper, e, c);
    UpperKept(pending, upper, e, c);
    SpannedMore(cdf, knots, e, c);
  }

  lemma SpannedMore(cdf: seq<Coord>, knots: seq<nat>, e: nat, c: Coord)
    requires forall i :: 0 <= i < |knots| ==> knots[i] < |cdf|
    requires Spanned(cdf, knots, e)
    ensures Spanned(cdf + [c], knots, e)
  {
    forall i, k | 0 <= i < |knots| - 1 && knots[i] <= k <= knots[i + 1]
      ensures Within((cdf + [c])[knots[i]], (cdf + [c])[knots[i + 1]], (cdf + [c])[k], e)
    {
      assert Within(cdf[knots[i]], cdf[knots[i + 1]], cdf[k], e);
    }
  }

  /** The line from the last knot to the newest point passes within e of all between. */
  lemma SegmentCloses(cdf: seq<Coord>, last: nat, lower: Coord, upper: Coord, e: nat)
    requires last < |cdf| - 1 && cdf[last].x < cdf[|cdf| - 1].x
    requires Corridor(cdf[last], cdf[last + 1..], lower, upper, e)
    requires CandidateInside(cdf[last], cdf[last + 1..], lower, upper)
    ensures forall k :: last <= k < |cdf| ==> Within(cdf[last], cdf[|cdf| - 1], cdf[k], e)
  {
    var n := |cdf| - 1;
    var pending := cdf[last + 1..];
    CandidateCovers(cdf[last], pending, lower, upper, e);
    WithinEnds(cdf[last], cdf[n], e);
    forall k | last <= k < |cdf|
      ensures Within(cdf[last], cdf[n], cdf[k], e)
    {
      if k > last {
        assert cdf[k] == pending[k - last - 1];
      }
    }
  }

  /** The previous point becomes a spline point: the closed segment is within e. */
  lemma KnotAdded(cdf: seq<Coord>, points: seq<Coord>, knots: seq<nat>, lower: Coord, upper: Coord, e: nat)
    requires Curve(cdf, points, knots, lower, upper, e) && |cdf| > 1
    ensures Knots(cdf, points + [cdf[|cdf| - 1]], knots + [|cdf| - 1])
    ensures Spanned(cdf, knots + [|cdf| - 1], e)
  {
    hide Corridor;
    hide CandidateInside;
    hide UpperMet;
    SegmentCloses(cdf, knots[|knots| - 1], lower, upper, e);
    SpannedAdded(cdf, points, knots, e);
    hide Spanned;
  }

  lemma SpannedAdded(cdf: seq<Coord>, points: seq<Coord>, knots: seq<nat>, e: nat)
    requires Knots(cdf, points, knots) && Spanned(cdf, knots, e) && |knots| > 0
    requires forall k :: knots[|knots| - 1] <= k < |cdf| ==> Within(cdf[knots[|knots| - 1]], cdf[|cdf| - 1], cdf[k], e)
    ensures Spanned(cdf, knots + [|cdf| - 1], e)
  {
    hide Within;
  }

  lemma CurveCut(cdf: seq<Coord>, points: seq<Coord>, knots: seq<nat>, lower: Coord, upper: Coord, e: nat, c: Coord)
    requires Curve(cdf, points, knots, lower, upper, e) && |cdf| > 1
    requires cdf[|cdf| - 1].x < c.x && cdf[|cdf| - 1].y < c.y
    ensures Curve(cdf + [c], points + [cdf[|cdf| - 1]], knots + [|cdf| - 1], LowerFor(c, e), UpperFor(c, e), e)
  {
    KnotAdded(cdf, points, knots, lower, upper, e);
    IncreasingAppend(cdf, c);
    SpannedMore(cdf, knots + [|cdf| - 1], e, c);
    assert (cdf + [c])[|cdf|..] == [c];
    FreshCorridor(cdf[|cdf| - 1], c, e);
    UpperFresh(c, e);
  }

  /** A point between the limits: the pass goes on with the limits it tightens. */
  lemma KeepStep(cdf: seq<Coord>, points: seq<Coord>, knots: seq<nat>, lower: Coord, upper: Coord, e: nat, c: Coord)
    requires Curve(cdf, points, knots, lower, upper, e) && Drawn(cdf, knots, lower, upper, e) && |cdf| > 1
    requires cdf[|cdf| - 1].x < c.x && cdf[|cdf| - 1].y < c.y && Between(points, lower, upper, c)
    ensures points != []
    ensures var b := points[|points| - 1];
            var upper' := if Turn(b, upper, UpperFor(c, e)) == CW then UpperFor(c, e) else upper;
            var lower' := if Turn(b, lower, LowerFor(c, e)) == CCW then LowerFor(c, e) else lower;
            Curve(cdf + [c], points, knots, lower', upper', e) && Drawn(cdf + [c], knots, lower', upper', e)
  {
    hide Drawn;
    LastKnot(cdf, points, knots, lower, upper, e);
    hide Curve;
    var b := points[|points| - 1];
    BetweenIsStrict(points, lower, upper, c);
    TurnCompares(b, upper, UpperFor(c, e));
    TurnCompares(b, lower, LowerFor(c, e));
    StrictIsBelow(b, lower, upper, c);
    hide Between;
    hide Below;
    hide Turn;
    CurveKeep(cdf, points, knots, lower, upper, e, c);
    DrawnKeep(cdf, knots, lower, upper, e, c);
  }

  lemma StrictIsBelow(b: Coord, lower: Coord, upper: Coord, c: Coord)
    requires !Below(b, upper, c) && !Below(b, c, lower)
    ensures Below(b, lower, c) && Below(b, c, upper)
  {
  }

  /** Any other point: the newest one becomes a knot. */
  lemma CutStep(cdf: seq<Coord>, points: seq<Coord>, knots: seq<nat>, lower: Coord, upper: Coord, e: nat, c: Coord)
    requires Curve(cdf, points, knots, lower, upper, e) && Drawn(cdf, knots, lower, upper, e) && |cdf| > 1
    requires cdf[|cdf| - 1].x < c.x && cdf[|cdf| - 1].y < c.y && !Between(points, lower, upper, c)
    ensures var p, knots' := cdf[|cdf| - 1], knots + [|cdf| - 1];
            && Curve(cdf + [c], points + [p], knots', LowerFor(c, e), UpperFor(c, e), e)
            && Drawn(cdf + [c], knots', LowerFor(c, e), UpperFor(c, e), e)
  {
    hide Drawn;
    LastKnot(cdf, points, knots, lower, upper, e);
    hide Curve;
    BetweenIsStrict(points, lower, upper, c);
    hide Between;
    hide Below;
    CurveCut(cdf, points, knots, lower, upper, e, c);
    DrawnCut(cdf, knots, lower, upper, e, c);
  }

  /** The turn tests of the pass, and what they say about the newest point. */
  lemma CutTest(cdf: seq<Coord>, points: seq<Coord>, knots: seq<nat>, lower: Coord, upper: Coord, e: nat, c: Coord)
    requires Curve(cdf, points, knots, lower, upper, e) && Drawn(cdf, knots, lower, upper, e) && |cdf| > 1
    requires cdf[|cdf| - 1].x < c.x
    ensures points != [] && points[|points| - 1].x < cdf[|cdf| - 1].x && points[|points| - 1].y < cdf[|cdf| - 1].y
    ensures var b := points[|points| - 1];
            Between(points, lower, upper, c) <==> Turn(b, upper, c) == CW && Turn(b, lower, c) == CCW
    ensures knots != []
    ensures Between(points, lower, upper, c) <==> !Forced(cdf + [c], knots[|knots| - 1], |cdf| - 1, e)
  {
    hide Drawn;
    hide Forced;
    LastKnot(cdf, points, knots, lower, upper, e);
    hide Curve;
    var b := points[|points| - 1];
    ForcedIff(cdf, knots, lower, upper, e, c);
    TurnCompares(b, upper, c);
    TurnCompares(b, lower, c);
    BetweenIsStrict(points, lower, upper, c);
  }

  /** The finished, read-only spline. */
  datatype RadixSpline = RadixSpline(minKey: nat, maxKey: nat, numKeys: nat, numShiftBits: nat, maxError: nat,
                                     radixTable: seq<nat>, points: seq<Coord>)

  /** Every table entry p counts the spline points with prefix below p. */
  ghost predicate TableExact(rs: RadixSpline) {
    && KeysFrom(rs.minKey, rs.points)
    && rs.minKey <= rs.maxKey
    && |rs.radixTable| == Prefix(rs.minKey, rs.numShiftBits, rs.maxKey) + 2
    && forall p :: 0 <= p < |rs.radixTable| ==> Entry(rs.minKey, rs.numShiftBits, rs.points, rs.radixTable[p], p)
  }

  lemma CdfAppend(keys: seq<nat>, key: nat)
    ensures Cdf(keys + [key]) ==
              if keys != [] && keys[|keys| - 1] == key then Cdf(keys) else Cdf(keys) + [Coord(key, |keys|)]
  {
    assert (keys + [key])[..|keys|] == keys;
  }

  /** What the pass needs to know of the distribution before the next key. */
  lemma CurveCdf(keys: seq<nat>, minKey: nat, key: nat)
    requires Sorted(keys) && forall k :: k in keys ==> minKey <= k
    ensures keys == [] ==> Cdf(keys) == []
    ensures keys != [] ==> Cdf(keys) != []
    ensures keys != [] ==> var p := Cdf(keys)[|Cdf(keys)| - 1];
              p.x == keys[|keys| - 1] && minKey <= p.x && 0 <= p.y < |keys|
  {
    CdfIncreasing(keys);
    if keys != [] {
      CdfEnds(keys);
      assert keys[|keys| - 1] in keys;
    }
  }

  class Builder {
    const minKey: nat
    const maxKey: nat
    const numShiftBits: nat
    const maxError: nat

    const radixTable: array<nat>
    var points: seq<Coord>

    var currNumKeys: nat
    var currNumDistinctKeys: nat
    var prevKey: nat
    var prevPosition: nat
    var prevPrefix: nat

    var upperLimit: Coord
    var lowerLimit: Coord
    var prevPoint: Coord

    ghost var keys: seq<nat>
    ghost var knots: seq<nat>

    /** Key range and the part of the radix table filled so far. */
    ghost predicate TableValid()
      reads `points, `prevPrefix, radixTable
    {
      && minKey < maxKey
      && radixTable.Length == Prefix(minKey, numShiftBits, maxKey) + 2
      && KeysFrom(minKey, points) && Increasing(points)
      && (points != [] ==> points[|points| - 1].x <= maxKey)
      && prevPrefix == (if points == [] then 0 else Prefix(minKey, numShiftBits, points[|points| - 1].x))
      && prevPrefix + 1 < radixTable.Length
      && forall p :: 0 <= p <= prevPrefix ==> Entry(minKey, numShiftBits, points, radixTable[p], p)
    }

    ghost predicate CurveValid()
      reads this
    {
      && Sorted(keys) && (forall k :: k in keys ==> minKey <= k <= maxKey)
      && currNumKeys == |keys| && currNumDistinctKeys == |Cdf(keys)|
      && (keys == [] ==> points == [] && prevKey == minKey && prevPosition == 0)
      && (keys != [] ==>
            && prevKey == keys[|keys| - 1] && prevPosition == |keys| - 1
            && Curve(Cdf(keys), points, knots, lowerLimit, upperLimit, maxError)
            && Drawn(Cdf(keys), knots, lowerLimit, upperLimit, maxError)
            && prevPoint == Cdf(keys)[|Cdf(keys)| - 1])
    }

    ghost predicate Valid()
      reads this, radixTable
    {
      TableValid() && CurveValid()
    }

    constructor (w: nat, minKey: nat, maxKey: nat, numRadixBits: nat, maxError: nat)
      requires minKey < maxKey < Pow2(w)
      ensures Valid() && keys == [] && fresh(radixTable)
      ensures this.minKey == minKey && this.maxKey == maxKey && this.maxError == maxError
      ensures numShiftBits == NumShiftBits(w, maxKey - minKey, numRadixBits)
      ensures radixTable.Length <= Pow2(numRadixBits) + 1
      ensures forall p :: 0 <= p < radixTable.Length ==> radixTable[p] == 0
    {
      hide Pow2;
      hide Shr;
      hide FloorLog2;
      hide NumShiftBits;
      this.minKey, this.maxKey, this.maxError := minKey, maxKey, maxError;
      var shift := NumShiftBits(w, maxKey - minKey, numRadixBits);
      numShiftBits := shift;
      PrefixBound(w, maxKey - minKey, numRadixBits);
      radixTable := new nat[Shr(maxKey - minKey, shift) + 2](_ => 0);
      points, keys, knots := [], [], [];
      currNumKeys, currNumDistinctKeys := 0, 0;
      prevKey, prevPosition, prevPrefix := minKey, 0, 0;
      upperLimit, lowerLimit, prevPoint := Coord(0, 0), Coord(0, 0), Coord(0, 0);
    }

    method PossiblyAddKeyToRadixTable(key: nat)
      requires minKey < maxKey && minKey <= key <= maxKey
      requires points != [] && points[|points| - 1].x == key
      requires radixTable.Length == Prefix(minKey, numShiftBits, maxKey) + 2
      requires KeysFrom(minKey, points) && Increasing(points)
      requires var older := points[..|points| - 1];
               prevPrefix == (if older == [] then 0 else Prefix(minKey, numShiftBits, older[|older| - 1].x))
      requires prevPrefix + 1 < radixTable.Length
      requires forall p :: 0 <= p <= prevPrefix ==> Entry(minKey, numShiftBits, points, radixTable[p], p)
      modifies `prevPrefix, radixTable
      ensures TableValid()
    {
      var currPrefix := Prefix(minKey, numShiftBits, key);
      PrefixMonotone(minKey, numShiftBits, key, maxKey);
      NewestPrefix(minKey, numShiftBits, points);
      if currPrefix != prevPrefix {
        var currIndex := |points| - 1;
        var prefix := prevPrefix + 1;
        while prefix <= currPrefix
          invariant prevPrefix < prefix <= currPrefix + 1
          invariant forall p :: 0 <= p < prefix ==> Entry(minKey, numShiftBits, points, radixTable[p], p)
        {
          radixTable[prefix] := currIndex;
          prefix := prefix + 1;
        }
        prevPrefix := currPrefix;
      }
    }

    method AddKeyToSpline(key: nat, position: nat)
      requires TableValid() && minKey <= key <= maxKey
      requires points != [] ==> points[|points| - 1].x < key && points[|points| - 1].y < position
      modifies `points, `prevPrefix, radixTable
      ensures points == old(points) + [Coord(key, position)]
      ensures TableValid()
    {
      IncreasingAppend(points, Coord(key, position));
      NewPointKeepsEntries(minKey, numShiftBits, points, Coord(key, position), prevPrefix, radixTable[..]);
      hide Entry;
      hide Prefix;
      hide Increasing;
      hide KeysFrom;
      points := points + [Coord(key, position)];
      assert points[..|points| - 1] == old(points);
      PossiblyAddKeyToRadixTable(key);
    }

    /** The greedy corridor: position is where key, if new, first occurs. */
    method PossiblyAddKeyToSpline(key: nat, position: nat)
      requires Valid() && minKey <= key <= maxKey && prevKey <= key
      requires position == currNumKeys
      modifies this, radixTable
      ensures TableValid()
      ensures keys == old(keys) && prevKey == old(prevKey)
      ensures prevPosition == old(prevPosition) && currNumKeys == old(currNumKeys)
      ensures var cdf := Cdf(keys + [key]);
              && Curve(cdf, points, knots, lowerLimit, upperLimit, maxError)
              && Drawn(cdf, knots, lowerLimit, upperLimit, maxError)
              && prevPoint == cdf[|cdf| - 1] && currNumDistinctKeys == |cdf|
    {
      hide TableValid;
      hide Curve;
      hide Drawn;
      hide Sorted;
      CdfAppend(keys, key);
      CurveCdf(keys, minKey, key);
      hide Cdf;
      if currNumKeys == 0 {
        AddKeyToSpline(key, position);
        currNumDistinctKeys := currNumDistinctKeys + 1;
        prevPoint := Coord(key, position);
        knots := [0];
        CurveFirst(prevPoint, maxError, lowerLimit, upperLimit);
        DrawnFirst(prevPoint, lowerLimit, upperLimit, maxError);
        assert points == [prevPoint] && Cdf(keys + [key]) == [prevPoint];
        return;
      }
      if key == prevKey {
        return;
      }
      ghost var cdf := Cdf(keys);
      var c := Coord(key, position);
      currNumDistinctKeys := currNumDistinctKeys + 1;
      if currNumDistinctKeys == 2 {
        FirstKnot(cdf, points, knots, lowerLimit, upperLimit, maxError);
        CurveSecond(cdf, points, knots, lowerLimit, upperLimit, maxError, c);
        DrawnSecond(cdf, knots, lowerLimit, upperLimit, maxError, c);
        upperLimit, lowerLimit := UpperFor(c, maxError), LowerFor(c, maxError);
        prevPoint := c;
        return;
      }
      ExtendCorridor(c, cdf);
    }

    /** A third or later distinct key. While it lies strictly between the limits the corridor is
        tightened and the spline points stay as they were; otherwise the previous point becomes
        a spline point, which is when the line to the new point escapes some pending point. */
    method ExtendCorridor(c: Coord, ghost cdf: seq<Coord>)
      requires TableValid() && minKey <= c.x <= maxKey && 0 <= c.y
      requires Curve(cdf, points, knots, lowerLimit, upperLimit, maxError) && |cdf| > 1
      requires Drawn(cdf, knots, lowerLimit, upperLimit, maxError)
      requires prevPoint == cdf[|cdf| - 1] && prevPoint.x < c.x && prevPoint.y < c.y
      requires minKey <= prevPoint.x && 0 <= prevPoint.y
      modifies `points, `knots, `lowerLimit, `upperLimit, `prevPoint, `prevPrefix, radixTable
      ensures TableValid()
      ensures Curve(cdf + [c], points, knots, lowerLimit, upperLimit, maxError) && prevPoint == c
      ensures Drawn(cdf + [c], knots, lowerLimit, upperLimit, maxError)
      ensures points == if Between(old(points), old(lowerLimit), old(upperLimit), c) then old(points)
                        else old(points) + [old(prevPoint)]
      ensures Between(old(points), old(lowerLimit), old(upperLimit), c)
              <==> !Forced(cdf + [c], old(knots)[|old(knots)| - 1], |cdf| - 1, maxError)
    {
      hide Curve;
      hide Drawn;
      hide Forced;
      hide TableValid;
      hide Between;
      hide Turn;
      CutTest(cdf, points, knots, lowerLimit, upperLimit, maxError, c);
      var last := points[|points| - 1];
      var upperY, lowerY := UpperFor(c, maxError), LowerFor(c, maxError);
      if Turn(last, upperLimit, c) != CW || Turn(last, lowerLimit, c) != CCW {
        CutCorridor(c, cdf);
      } else {
        KeepStep(cdf, points, knots, lowerLimit, upperLimit, maxError, c);
        var upper, lower := upperLimit, lowerLimit;
        if Turn(last, upper, upperY) == CW {
          upperLimit := upperY;
        }
        if Turn(last, lower, lowerY) == CCW {
          lowerLimit := lowerY;
        }
      }
      prevPoint := c;
    }

    /** The corridor is cut: the previous point becomes a spline point. */
    method CutCorridor(c: Coord, ghost cdf: seq<Coord>)
      requires TableValid() && minKey <= c.x <= maxKey && 0 <= c.y
      requires Curve(cdf, points, knots, lowerLimit, upperLimit, maxError) && |cdf| > 1
      requires Drawn(cdf, knots, lowerLimit, upperLimit, maxError)
      requires !Between(points, lowerLimit, upperLimit, c)
      requires prevPoint == cdf[|cdf| - 1] && prevPoint.x < c.x && prevPoint.y < c.y
      requires minKey <= prevPoint.x && 0 <= prevPoint.y
      modifies `points, `knots, `lowerLimit, `upperLimit, `prevPrefix, radixTable
      ensures TableValid()
      ensures Curve(cdf + [c], points, knots, lowerLimit, upperLimit, maxError)
      ensures Drawn(cdf + [c], knots, lowerLimit, upperLimit, maxError)
      ensures points == old(points) + [prevPoint]
    {
      hide *;
      LastKnot(cdf, points, knots, lowerLimit, upperLimit, maxError);
      CutStep(cdf, points, knots, lowerLimit, upperLimit, maxError, c);
      knots := knots + [|cdf| - 1];
      AddKeyToSpline(prevPoint.x, prevPoint.y);
      upperLimit, lowerLimit := UpperFor(c, maxError), LowerFor(c, maxError);
    }

    /** Adds the next key of the sorted, dense array. */
    method AddKey(key: nat)
      requires Valid() && minKey <= key <= maxKey && prevKey <= key
      modifies this, radixTable
      ensures Valid() && keys == old(keys) + [key]
    {
      hide Curve;
      hide TableValid;
      hide Cdf;
      var position := if currNumKeys == 0 then 0 else prevPosition + 1;
      SortedAppend(keys, key);
      hide Sorted;
      PossiblyAddKeyToSpline(key, position);
      currNumKeys := currNumKeys + 1;
      prevKey := key;
      prevPosition := position;
      keys := keys + [key];
    }

    /** Table entries beyond the last prefix count every spline point. */
    method FinalizeRadixTable()
      requires TableValid()
      modifies `prevPrefix, radixTable
      ensures forall p :: 0 <= p < radixTable.Length ==> Entry(minKey, numShiftBits, points, radixTable[p], p)
    {
      if points != [] {
        NewestPrefix(minKey, numShiftBits, points);
      }
      prevPrefix := prevPrefix + 1;
      while prevPrefix < radixTable.Length
        invariant old(prevPrefix) < prevPrefix <= radixTable.Length
        invariant forall p :: 0 <= p < prevPrefix ==> Entry(minKey, numShiftBits, points, radixTable[p], p)
      {
        radixTable[prevPrefix] := |points|;
        prevPrefix := prevPrefix + 1;
      }
    }

    /** The closing point does not lie above the corridor: the guard of the cut, put to the
        last key at its last position. */
    ghost predicate ClosesInside()
      reads this
    {
      keys != [] && points != [] && Below(points[|points| - 1], Closing(keys), upperLimit)
    }

    /** Ensures that the last key is the last spline point. */
    method CloseAtLastKey()
      requires Valid()
      modifies `points, `prevPrefix, radixTable
      ensures TableValid()
      ensures keys == [] ==> points == []
      ensures |Cdf(keys)| >= 2 ==>
                && |keys| >= 2 && |points| >= 2
                && points == old(points) + [Closing(keys)] && points[0] == Coord(keys[0], 0)
                && (Approximates(points, Cdf(keys), maxError) <==> old(ClosesInside()))
      ensures |Cdf(keys)| >= 2 && keys[|keys| - 2] != keys[|keys| - 1] ==> old(ClosesInside())
    {
      hide TableValid;
      hide Curve;
      hide Drawn;
      hide Below;
      hide Approximates;
      assert Cdf([]) == [];
      hide Cdf;
      if currNumKeys == 0 {
        return;
      }
      FinalKnot(keys, points, knots, lowerLimit, upperLimit, maxError);
      if |Cdf(keys)| >= 2 && keys[|keys| - 2] != keys[|keys| - 1] {
        UniqueLastInside(keys, points, knots, lowerLimit, upperLimit, maxError);
      }
      hide Sorted;
      assert keys[|keys| - 1] in keys;
      if points[|points| - 1].x != prevKey {
        AddKeyToSpline(prevKey, prevPosition);
      }
    }

    /** Closes the spline at the last key and freezes it. Every point before the closing one is
        a point of the distribution. The closing point takes the last
        position of the largest key; the error bound then holds exactly when this point does
        not lie above the corridor, and always when the largest key occurs once. */
    method Finalize() returns (rs: RadixSpline)
      requires Valid() && (keys != [] ==> keys[|keys| - 1] == maxKey)
      modifies this, radixTable
      ensures keys == old(keys)
      ensures rs.minKey == minKey && rs.maxKey == maxKey && rs.maxError == maxError
      ensures rs.numKeys == |keys| && rs.numShiftBits == numShiftBits
      ensures TableExact(rs) && (keys == [] ==> rs.points == [])
      ensures |Cdf(keys)| >= 2 ==>
                && |rs.points| >= 2 && Increasing(rs.points)
                && rs.points[0] == Coord(keys[0], 0) && rs.points == old(points) + [Coord(maxKey, |keys| - 1)]
      ensures |Cdf(keys)| >= 2 ==> OnCdf(rs.points, Cdf(keys)) && GreedyPoints(rs.points, Cdf(keys), maxError)
      ensures |Cdf(keys)| >= 2 ==> (Approximates(rs.points, Cdf(keys), maxError) <==> old(ClosesInside()))
      ensures |Cdf(keys)| >= 2 && keys[|keys| - 2] != maxKey ==>
                Approximates(rs.points, Cdf(keys), maxError)
    {
      hide Curve;
      hide Approximates;
      hide Cdf;
      hide ClosesInside;
      if keys != [] {
        KnotsOnCdf(Cdf(keys), points, knots, lowerLimit, upperLimit, maxError);
        DrawnPoints(Cdf(keys), points, knots, lowerLimit, upperLimit, maxError, Coord(maxKey, |keys| - 1));
      }
      hide Drawn;
      hide GreedyPoints;
      CloseAtLastKey();
      hide Increasing;
      hide Prefix;
      FinalizeRadixTable();
      rs := RadixSpline(minKey, maxKey, currNumKeys, numShiftBits, maxError, radixTable[..], points);
    }
  }

  lemma DrawnPoints(cdf: seq<Coord>, points: seq<Coord>, knots: seq<nat>, l: Coord, u: Coord, e: nat, closing: Coord)
    requires Curve(cdf, points, knots, l, u, e) && Drawn(cdf, knots, l, u, e)
    ensures GreedyPoints(points + [closing], cdf, e)
  {
    hide Greedy;
    hide Spanned;
    assert (points + [closing])[..|points|] == points;
  }

  /** Every spline point but the last is a point of the distribution. */
  ghost predicate OnCdf(points: seq<Coord>, cdf: seq<Coord>) {
    forall j :: 0 <= j < |points| - 1 ==> points[j] in cdf
  }

  lemma KnotsOnCdf(cdf: seq<Coord>, points: seq<Coord>, knots: seq<nat>, lower: Coord, upper: Coord, e: nat)
    requires Curve(cdf, points, knots, lower, upper, e)
    ensures forall p :: p in points ==> p in cdf
  {
  }

  /** The point that closes the spline: the last key at its last position. */
  function Closing(keys: seq<nat>): Coord
    requires keys != []
  {
    Coord(keys[|keys| - 1], |keys| - 1)
  }

  /** Adding the last key with the last position closes the spline, within the error exactly
      when this point does not lie above the corridor. */
  lemma FinalKnot(keys: seq<nat>, points: seq<Coord>, knots: seq<nat>, lower: Coord, upper: Coord, e: nat)
    requires keys != [] && Sorted(keys) && Curve(Cdf(keys), points, knots, lower, upper, e)
    ensures points != [] && Cdf(keys) != [] && points[0] == Coord(keys[0], 0)
    ensures if |Cdf(keys)| == 1 then points[|points| - 1].x == Closing(keys).x
            else points[|points| - 1].x < Closing(keys).x && points[|points| - 1].y < Closing(keys).y
    ensures |Cdf(keys)| >= 2 ==>
      |keys| >= 2 &&
      (Approximates(points + [Closing(keys)], Cdf(keys), e) <==> Below(points[|points| - 1], Closing(keys), upper))
  {
    hide Cdf;
    hide Approximates;
    hide Below;
    var cdf, c := Cdf(keys), Closing(keys);
    CdfEnds(keys);
    if |cdf| >= 2 {
      LastKnot(cdf, points, knots, lower, upper, e);
      LastSegment(cdf, points, knots, lower, upper, e, c);
    }
  }

  lemma LastSegment(cdf: seq<Coord>, points: seq<Coord>, knots: seq<nat>, lower: Coord, upper: Coord, e: nat, c: Coord)
    requires Curve(cdf, points, knots, lower, upper, e) && |cdf| > 1
    requires c.x == cdf[|cdf| - 1].x && cdf[|cdf| - 1].y <= c.y
    ensures points != []
    ensures Approximates(points + [c], cdf, e) <==> Below(points[|points| - 1], c, upper)
  {
    hide Within;
    hide Corridor;
    hide CandidateInside;
    hide UpperMet;
    hide Spanned;
    hide Approximates;
    hide Below;
    var last := knots[|knots| - 1];
    var pending := cdf[last + 1..];
    ClosingApproximates(cdf, points, knots, e, c);
    CoversExactly(cdf[last], pending, lower, upper, e, c);
    PendingCloses(cdf, last, c, e);
  }

  lemma PendingCloses(cdf: seq<Coord>, last: nat, c: Coord, e: nat)
    requires last < |cdf|
    ensures var pending := cdf[last + 1..];
            Closes(cdf, last, c, e) <==> forall k :: 0 <= k < |pending| ==> Within(cdf[last], c, pending[k], e)
  {
    hide Within;
    var pending := cdf[last + 1..];
    assert forall k :: last < k < |cdf| ==> cdf[k] == pending[k - last - 1];
  }

  /** With a unique last key the closing point is the candidate itself. */
  lemma UniqueLastInside(keys: seq<nat>, points: seq<Coord>, knots: seq<nat>, lower: Coord, upper: Coord, e: nat)
    requires |keys| >= 2 && keys[|keys| - 2] != keys[|keys| - 1] && |Cdf(keys)| >= 2
    requires Curve(Cdf(keys), points, knots, lower, upper, e)
    ensures points != [] && Below(points[|points| - 1], Closing(keys), upper)
  {
    var cdf := Cdf(keys);
    assert cdf[|cdf| - 1] == Closing(keys);
  }

  /** One key, then the largest one several times. */
  function Repeated(first: nat, last: nat, times: nat): seq<nat> {
    [first] + seq(times, _ => last)
  }

  lemma {:induction false} RepeatedCdf(first: nat, last: nat, times: nat)
    requires first < last && times > 0
    ensures Cdf(Repeated(first, last, times)) == [Coord(first, 0), Coord(last, 1)]
  {
    var keys := Repeated(first, last, times);
    if times > 1 {
      assert keys[..times] == Repeated(first, last, times - 1);
      RepeatedCdf(first, last, times - 1);
    } else {
      assert keys[..1] == [first] && [first][..0] == [];
      assert Cdf([first]) == Cdf([]) + [Coord(first, 0)];
    }
  }

  /** With only these two points in the distribution the pass is still on its first segment. */
  lemma TwoPointCurve(first: nat, last: nat, points: seq<Coord>, knots: seq<nat>, l: Coord, u: Coord, e: nat)
    requires Curve([Coord(first, 0), Coord(last, 1)], points, knots, l, u, e)
    ensures points == [Coord(first, 0)] && u == Coord(last, 1 + e)
  {
    var cdf := [Coord(first, 0), Coord(last, 1)];
    assert knots[|knots| - 1] == 0;
    assert |knots| == 1;
    assert cdf[1..] == [Coord(last, 1)];
    assert points[0] == cdf[0];
  }

  lemma ClosingHeight(first: nat, last: nat, times: nat, e: nat)
    requires first < last
    ensures Below(Coord(first, 0), Coord(last, times), Coord(last, 1 + e)) <==> times <= 1 + e
  {
    if times > 1 + e {
      MulLe(last - first, 1 + e + 1, times);
    } else {
      MulLe(last - first, times, 1 + e);
    }
  }

  lemma RepeatedCloses(first: nat, last: nat, times: nat, points: seq<Coord>, knots: seq<nat>, l: Coord, u: Coord,
                       e: nat)
    requires first < last && times > 0
    requires Curve(Cdf(Repeated(first, last, times)), points, knots, l, u, e)
    ensures |Cdf(Repeated(first, last, times))| == 2
    ensures points != [] && (Below(points[|points| - 1], Closing(Repeated(first, last, times)), u) <==> times <= e + 1)
  {
    hide Curve;
    hide Below;
    RepeatedCdf(first, last, times);
    TwoPointCurve(first, last, points, knots, l, u, e);
    ClosingHeight(first, last, times, e);
  }

  /** A key followed by the largest key several times: the error bound survives exactly as
      long as the last position is within the error of the first one. With maxError 1 the
      keys 1, 5, 5 keep it and the keys 1, 5, 5, 5 break it. */
  method RepeatedMaximum(w: nat, first: nat, last: nat, times: nat, numRadixBits: nat, maxError: nat)
    returns (rs: RadixSpline)
    requires first < last < Pow2(w) && times > 0
    ensures Approximates(rs.points, Cdf(Repeated(first, last, times)), maxError) <==> times <= maxError + 1
  {
    hide Approximates;
    hide Curve;
    hide Below;
    hide Cdf;
    hide TableExact;
    hide Increasing;
    var builder := new Builder(w, first, last, numRadixBits, maxError);
    builder.AddKey(first);
    for i := 0 to times
      invariant builder.Valid() && fresh(builder) && fresh(builder.radixTable)
      invariant builder.keys == Repeated(first, last, i)
    {
      builder.AddKey(last);
      assert Repeated(first, last, i + 1) == Repeated(first, last, i) + [last];
    }
    RepeatedCloses(first, last, times, builder.points, builder.knots, builder.lowerLimit, builder.upperLimit, maxError);
    rs := builder.Finalize();
  }

  /** Without error every point of the distribution becomes a spline point. */
  lemma ZeroErrorKeepsAll(cdf: seq<Coord>, points: seq<Coord>)
    requires Increasing(cdf) && |cdf| >= 2 && GreedyPoints(points, cdf, 0)
    ensures points[..|points| - 1] == cdf[..|cdf| - 1]
  {
    var n := |cdf| - 1;
    var all := seq(n, i => i);
    forall i | 0 < i < n
      ensures Forced(cdf, all[i - 1], all[i], 0) && Free(cdf, all[i - 1], all[i], 0)
    {
      assert Escapes(cdf[i - 1], cdf[i], cdf[i + 1], 0);
    }
    assert Free(cdf, all[n - 1], n, 0);
    hide Forced;
    hide Free;
    hide Increasing;
    assert (cdf[..n] + [cdf[n]])[..n] == cdf[..n];
    assert Knots(cdf, cdf[..n], all) && Greedy(cdf, all, 0);
    assert GreedyPoints(cdf[..n] + [cdf[n]], cdf, 0);
    GreedyUnique(cdf, points, cdf[..n] + [cdf[n]], 0);
  }

  /** The distribution of consecutive keys is a line, and no point of it is escaped. */
  lemma LineNotEscaped(b: Coord, p: Coord, c: Coord, e: nat)
    requires e >= 1 && 0 == b.y < p.y < c.y && p.x - b.x == p.y && c.x - b.x == c.y
    ensures !Escapes(b, p, c, e)
  {
    MulLe(c.y, p.y + 1, p.y + e);
    MulLe(c.y, if p.y < e then 0 else p.y - e, p.y - 1);
  }

  lemma LineNeedsTwo(cdf: seq<Coord>, points: seq<Coord>, first: nat, e: nat)
    requires |cdf| >= 2 && forall i :: 0 <= i < |cdf| ==> cdf[i] == Coord(first + i, i)
    requires e >= 1 && GreedyPoints(points, cdf, e)
    ensures points[..|points| - 1] == [cdf[0]]
  {
    var knots: seq<nat> := [0];
    forall m | 0 < m < |cdf| - 1
      ensures !Forced(cdf, 0, m, e)
    {
      forall j | 0 < j <= m
        ensures !Escapes(cdf[0], cdf[j], cdf[m + 1], e)
      {
        LineNotEscaped(cdf[0], cdf[j], cdf[m + 1], e);
      }
    }
    hide Forced;
    var two := [cdf[0], cdf[1]];
    assert two[..1] == [cdf[0]];
    assert Knots(cdf, two[..1], knots) && Greedy(cdf, knots, e);
    assert GreedyPoints(two, cdf, e);
    GreedyUnique(cdf, points, two, e);
  }

  function Consecutive(first: nat, count: nat): (keys: seq<nat>)
    ensures |keys| == count && forall i :: 0 <= i < count ==> keys[i] == first + i
  {
    seq(count, i => first + i)
  }

  lemma ConsecutiveMore(first: nat, count: nat)
    ensures Consecutive(first, count + 1) == Consecutive(first, count) + [first + count]
  {
  }

  lemma ConsecutiveCdf(first: nat, count: nat)
    requires count >= 2
    ensures var cdf := Cdf(Consecutive(first, count));
            |cdf| == count && Increasing(cdf) && forall i :: 0 <= i < count ==> cdf[i] == Coord(first + i, i)
  {
    CdfDistinct(Consecutive(first, count));
    CdfIncreasing(Consecutive(first, count));
  }

  /** Consecutive keys: with an error of at least 1 the spline has two points, and without error
      it has all of them. */
  method ConsecutiveKeys(w: nat, first: nat, count: nat, numRadixBits: nat, maxError: nat) returns (rs: RadixSpline)
    requires count >= 2 && first + count - 1 < Pow2(w)
    ensures maxError >= 1 ==> rs.points == [Coord(first, 0), Coord(first + count - 1, count - 1)]
    ensures maxError == 0 ==>
              |rs.points| == count && forall i :: 0 <= i < count ==> rs.points[i] == Coord(first + i, i)
  {
    hide Approximates;
    hide Curve;
    hide Drawn;
    hide Cdf;
    hide TableExact;
    hide Increasing;
    hide GreedyPoints;
    hide Sorted;
    hide Consecutive;
    var builder := new Builder(w, first, first + count - 1, numRadixBits, maxError);
    for i := 0 to count
      invariant builder.Valid() && fresh(builder) && fresh(builder.radixTable)
      invariant builder.keys == Consecutive(first, i)
    {
      builder.AddKey(first + i);
      ConsecutiveMore(first, i);
    }
    ConsecutiveCdf(first, count);
    rs := builder.Finalize();
    LinePoints(Cdf(builder.keys), rs.points, first, maxError);
  }

  lemma LinePoints(cdf: seq<Coord>, points: seq<Coord>, first: nat, e: nat)
    requires |cdf| >= 2 && Increasing(cdf) && forall i :: 0 <= i < |cdf| ==> cdf[i] == Coord(first + i, i)
    requires GreedyPoints(points, cdf, e) && points[|points| - 1] == cdf[|cdf| - 1]
    ensures e >= 1 ==> points == [cdf[0], cdf[|cdf| - 1]]
    ensures e == 0 ==> points == cdf
  {
    var n := |points| - 1;
    if e >= 1 {
      LineNeedsTwo(cdf, points, first, e);
    } else {
      ZeroErrorKeepsAll(cdf, points);
    }
    hide GreedyPoints;
    assert points == points[..n] + [points[n]];
    assert cdf == cdf[..|cdf| - 1] + [cdf[|cdf| - 1]];
  }

  /** Different first and last keys give at least two points. */
  lemma TwoPoints(keys: seq<nat>)
    requires |keys| >= 2 && keys[0] != keys[|keys| - 1]
    ensures |Cdf(keys)| >= 2
  {
    CdfEnds(keys);
  }

  lemma SortedAppend(keys: seq<nat>, key: nat)
    requires Sorted(keys) && (keys != [] ==> keys[|keys| - 1] <= key)
    ensures Sorted(keys + [key])
  {
  }

  /** Prefixes are monotone along the points; before the newest point they stay at
      or below the previous prefix. */
  lemma NewestPrefix(minKey: nat, shift: nat, points: seq<Coord>)
    requires points != [] && KeysFrom(minKey, points) && Increasing(points)
    ensures forall i, j :: 0 <= i <= j < |points| ==>
              Prefix(minKey, shift, points[i].x) <= Prefix(minKey, shift, points[j].x)
  {
    forall i, j | 0 <= i <= j < |points|
      ensures Prefix(minKey, shift, points[i].x) <= Prefix(minKey, shift, points[j].x)
    {
      PrefixMonotone(minKey, shift, points[i].x, points[j].x);
    }
  }

  lemma NewPointKeepsEntries(minKey: nat, shift: nat, points: seq<Coord>, c: Coord, prevPrefix: nat, table: seq<nat>)
    requires KeysFrom(minKey, points) && Increasing(points) && minKey <= c.x
    requires points != [] ==> points[|points| - 1].x < c.x
    requires prevPrefix == (if points == [] then 0 else Prefix(minKey, shift, points[|points| - 1].x))
    requires prevPrefix < |table|
    requires forall p :: 0 <= p <= prevPrefix ==> Entry(minKey, shift, points, table[p], p)
    ensures KeysFrom(minKey, points + [c])
    ensures forall p :: 0 <= p <= prevPrefix ==> Entry(minKey, shift, points + [c], table[p], p)
  {
    if points != [] {
      PrefixMonotone(minKey, shift, points[|points| - 1].x, c.x);
    }
  }
}