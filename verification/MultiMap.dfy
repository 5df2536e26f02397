/** A sorted array answered through a RadixSpline, as rs::MultiMap does. */
module MultiMap {
  import opened Bits
  import opened SplineBuilder
  import opened RadixSplineIndex

  ghost function KeysOf<V>(data: seq<(nat, V)>): (keys: seq<nat>)
    ensures |keys| == |data| && forall i :: 0 <= i < |data| ==> keys[i] == data[i].0
  {
    seq(|data|, i requires 0 <= i < |data| => data[i].0)
  }

  ghost predicate SortedByKey<V>(data: seq<(nat, V)>) {
    forall i, j :: 0 <= i < j < |data| ==> data[i].0 <= data[j].0
  }

  predicate KeyLess<V>(entry: (nat, V), key: int) {
    entry.0 < key
  }

  /** The largest key occurs once. */
  ghost predicate UniqueMax<V>(data: seq<(nat, V)>) {
    |data| >= 2 ==> data[|data| - 2].0 < data[|data| - 1].0
  }

  /** Where a key belongs among sorted keys. */
  ghost predicate PlaceOf(keys: seq<nat>, key: nat, r: nat) {
    r <= |keys| && (r > 0 ==> keys[r - 1] < key) && (r < |keys| ==> key <= keys[r])
  }

  /** A spline made for these sorted keys. */
  ghost predicate Serves(rs: RadixSpline, keys: seq<nat>) {
    && SplineValid(rs) && Sorted(keys) && |keys| >= 2 && rs.numKeys == |keys|
    && keys[0] == rs.minKey && keys[|keys| - 1] == rs.maxKey
  }

  predicate InBound(bound: SearchBound, r: nat) {
    bound.begin <= r <= bound.end
  }

  /** Place r starts another key than the place before it. */
  ghost predicate Gap(keys: seq<nat>, r: nat) {
    0 < r < |keys| && keys[r - 1] < keys[r]
  }

  /** The test of a gap: the estimate for its greatest key is not too far behind place r, and
      that for its least key not too far before it. */
  ghost predicate GapCovered(rs: RadixSpline, keys: seq<nat>, r: nat)
    requires SplineValid(rs) && Gap(keys, r)
  {
    && EstimatedPosition(rs, keys[r]).Floor <= r + rs.maxError
    && r <= EstimatedPosition(rs, keys[r - 1] + 1).Floor + rs.maxError + 2
  }

  ghost predicate GapsCovered(rs: RadixSpline, keys: seq<nat>)
    requires SplineValid(rs)
  {
    forall r: nat :: Gap(keys, r) ==> GapCovered(rs, keys, r)
  }

  /** No key occurs more than twice. */
  ghost predicate AtMostTwice(keys: seq<nat>) {
    forall i :: 0 <= i < |keys| - 2 ==> keys[i] < keys[i + 2]
  }

  /** The first occurrence of a key is a point of the distribution. */
  lemma {:induction false} FirstInCdf(keys: seq<nat>, i: nat) returns (k: nat)
    requires i < |keys| && (i > 0 ==> keys[i - 1] != keys[i])
    ensures k < |Cdf(keys)| && Cdf(keys)[k] == Coord(keys[i], i)
  {
    var n := |keys| - 1;
    if i == n {
      k := |Cdf(keys)| - 1;
    } else {
      k := FirstInCdf(keys[..n], i);
    }
  }

  /** A first occurrence is estimated within the error. */
  lemma FirstEstimate(rs: RadixSpline, keys: seq<nat>, i: nat)
    requires SplineValid(rs) && Sorted(keys) && Approximates(rs.points, Cdf(keys), rs.maxError)
    requires i < |keys| && (i > 0 ==> keys[i - 1] != keys[i])
    ensures (i - rs.maxError) as real <= EstimatedPosition(rs, keys[i]) <= (i + rs.maxError) as real
  {
    var k := FirstInCdf(keys, i);
    CdfIncreasing(keys);
    ErrorBound(rs, Cdf(keys), k);
  }

  /** One key: the bound contains its place when the estimate is near enough. */
  lemma InBoundIff(rs: RadixSpline, key: nat, r: nat)
    requires SplineValid(rs) && r <= rs.numKeys
    ensures var floor := EstimatedPosition(rs, key).Floor;
            InBound(BoundFor(rs, key), r) <==> floor <= r + rs.maxError && r <= floor + rs.maxError + 2
  {
    hide SplineValid;
    hide EstimatedPosition;
    EstimateInRange(rs, key);
  }

  lemma FloorMonotone(rs: RadixSpline, k1: nat, k2: nat)
    requires SplineValid(rs) && k1 <= k2
    ensures 0 <= EstimatedPosition(rs, k1).Floor <= EstimatedPosition(rs, k2).Floor
  {
    hide SplineValid;
    EstimateMonotone(rs, k1, k2);
    hide EstimatedPosition;
  }

  /** The keys of a gap are all found at their place exactly when the gap passes its test. */
  lemma GapExact(rs: RadixSpline, keys: seq<nat>, r: nat)
    requires Serves(rs, keys) && Gap(keys, r)
    ensures (forall key: nat :: keys[r - 1] < key <= keys[r] ==> InBound(BoundFor(rs, key), r))
            <==> GapCovered(rs, keys, r)
  {
    hide SplineValid;
    hide EstimatedPosition;
    hide BoundFor;
    hide InBound;
    InBoundIff(rs, keys[r - 1] + 1, r);
    InBoundIff(rs, keys[r], r);
    forall key: nat | keys[r - 1] < key <= keys[r] && GapCovered(rs, keys, r)
      ensures InBound(BoundFor(rs, key), r)
    {
      InBoundIff(rs, key, r);
      FloorMonotone(rs, keys[r - 1] + 1, key);
      FloorMonotone(rs, key, keys[r]);
    }
  }

  /** Keys up to the least and beyond the greatest one are always found. */
  lemma EndsInBound(rs: RadixSpline, keys: seq<nat>, key: nat, r: nat)
    requires Serves(rs, keys) && PlaceOf(keys, key, r) && (r == 0 || r == |keys|)
    ensures InBound(BoundFor(rs, key), r)
  {
    hide TableExact;
    hide Increasing;
    assert r == 0 ==> EstimatedPosition(rs, key) == 0.0;
    assert r > 0 ==> EstimatedPosition(rs, key) == (|keys| - 1) as real;
    hide EstimatedPosition;
    InBoundIff(rs, key, r);
  }

  /** Every query key has its place in its search bound exactly when all gaps pass the test,
      whatever repeats and however the spline was closed. */
  lemma BoundCoversIff(rs: RadixSpline, keys: seq<nat>)
    requires Serves(rs, keys)
    ensures (forall key: nat, r: nat :: PlaceOf(keys, key, r) ==> InBound(BoundFor(rs, key), r))
            <==> GapsCovered(rs, keys)
  {
    hide SplineValid;
    hide BoundFor;
    hide InBound;
    hide GapCovered;
    if forall key: nat, r: nat :: PlaceOf(keys, key, r) ==> InBound(BoundFor(rs, key), r) {
      forall r: nat | Gap(keys, r)
        ensures GapCovered(rs, keys, r)
      {
        forall key: nat | keys[r - 1] < key <= keys[r]
          ensures InBound(BoundFor(rs, key), r)
        {
          assert PlaceOf(keys, key, r);
        }
        GapExact(rs, keys, r);
      }
    }
    if GapsCovered(rs, keys) {
      forall key: nat, r: nat | PlaceOf(keys, key, r)
        ensures InBound(BoundFor(rs, key), r)
      {
        if r == 0 || r == |keys| {
          EndsInBound(rs, keys, key, r);
        } else {
          assert Gap(keys, r);
          GapExact(rs, keys, r);
        }
      }
    }
  }

  /** With an accurate spline the upper half of the test is enough. */
  lemma AccurateGap(rs: RadixSpline, keys: seq<nat>, r: nat)
    requires Serves(rs, keys) && Gap(keys, r) && Approximates(rs.points, Cdf(keys), rs.maxError)
    ensures GapCovered(rs, keys, r) <==> r <= EstimatedPosition(rs, keys[r - 1] + 1).Floor + rs.maxError + 2
  {
    hide SplineValid;
    FirstEstimate(rs, keys, r);
    hide Approximates;
    hide EstimatedPosition;
  }

  /** With an accurate spline every present key is found at its first position, however often
      keys repeat. */
  lemma PresentCovered(rs: RadixSpline, keys: seq<nat>, r: nat)
    requires Serves(rs, keys) && Approximates(rs.points, Cdf(keys), rs.maxError)
    requires r < |keys| && (r > 0 ==> keys[r - 1] < keys[r])
    ensures InBound(BoundFor(rs, keys[r]), r)
  {
    hide SplineValid;
    FirstEstimate(rs, keys, r);
    hide Approximates;
    hide EstimatedPosition;
    InBoundIff(rs, keys[r], r);
  }

  /** An accurate spline over keys that occur at most twice passes every test. */
  lemma TwiceCovered(rs: RadixSpline, keys: seq<nat>)
    requires Serves(rs, keys) && Approximates(rs.points, Cdf(keys), rs.maxError) && AtMostTwice(keys)
    ensures GapsCovered(rs, keys)
  {
    hide SplineValid;
    hide Approximates;
    forall r: nat | Gap(keys, r)
      ensures GapCovered(rs, keys, r)
    {
      var f := if r == 1 || keys[r - 2] < keys[r - 1] then r - 1 else r - 2;
      FirstEstimate(rs, keys, f);
      FloorMonotone(rs, keys[f], keys[r - 1] + 1);
      AccurateGap(rs, keys, r);
    }
  }

  /** Inserts one entry into a sorted sequence. */
  function InsertByKey<V>(sorted: seq<(nat, V)>, entry: (nat, V)): (r: seq<(nat, V)>)
    ensures multiset(r) == multiset(sorted) + multiset{entry}
  {
    if sorted == [] || entry.0 < sorted[0].0 then
      [entry] + sorted
    else
      assert sorted == [sorted[0]] + sorted[1..];
      [sorted[0]] + InsertByKey(sorted[1..], entry)
  }

  lemma {:induction false} InsertKeepsSorted<V>(sorted: seq<(nat, V)>, entry: (nat, V))
    requires SortedByKey(sorted)
    ensures var r := InsertByKey(sorted, entry);
            SortedByKey(r) && r != [] && (r[0] == entry || (sorted != [] && r[0] == sorted[0]))
  {
    if sorted != [] && entry.0 >= sorted[0].0 {
      InsertKeepsSorted(sorted[1..], entry);
      SortedCons(sorted[0], InsertByKey(sorted[1..], entry));
    } else {
      SortedCons(entry, sorted);
    }
  }

  lemma SortedCons<V>(first: (nat, V), rest: seq<(nat, V)>)
    requires SortedByKey(rest) && (rest == [] || first.0 <= rest[0].0)
    ensures SortedByKey([first] + rest)
  {
  }

  /** The sort by key; which stable or unstable sort is used does not matter here. */
  method SortByKey<V>(data: seq<(nat, V)>) returns (sorted: seq<(nat, V)>)
    ensures SortedByKey(sorted) && multiset(sorted) == multiset(data)
  {
    sorted := [];
    for i := 0 to |data|
      invariant SortedByKey(sorted) && multiset(sorted) == multiset(data[..i])
    {
      InsertKeepsSorted(sorted, data[i]);
      sorted := InsertByKey(sorted, data[i]);
      assert data[..i + 1] == data[..i] + [data[i]];
    }
    assert data[..|data|] == data;
  }

  /** With two different keys in the input, the sorted copy has different ends. */
  lemma EndsDiffer<V>(w: nat, input: seq<(nat, V)>, copy: seq<(nat, V)>)
    requires SortedByKey(copy) && multiset(copy) == multiset(input)
    requires forall e :: e in input ==> e.0 < Pow2(w)
    requires exists i, j :: 0 <= i < |input| && 0 <= j < |input| && input[i].0 < input[j].0
    ensures |copy| >= 2 && copy[0].0 < copy[|copy| - 1].0 < Pow2(w)
  {
    var i, j :| 0 <= i < |input| && 0 <= j < |input| && input[i].0 < input[j].0;
    assert input[i] in multiset(copy) && input[j] in multiset(copy);
    var a :| 0 <= a < |copy| && copy[a] == input[i];
    var b :| 0 <= b < |copy| && copy[b] == input[j];
    assert copy[|copy| - 1] in multiset(input);
  }

  /** One pass of the builder over the sorted data. */
  method BuildSpline<V>(w: nat, data: seq<(nat, V)>, numRadixBits: nat, maxError: nat) returns (rs: RadixSpline)
    requires SortedByKey(data) && |data| >= 2 && data[0].0 < data[|data| - 1].0 < Pow2(w)
    ensures SplineValid(rs) && rs.maxError == maxError && rs.numKeys == |data|
    ensures rs.minKey == data[0].0 && rs.maxKey == data[|data| - 1].0
    ensures UniqueMax(data) ==> Approximates(rs.points, Cdf(KeysOf(data)), maxError)
    ensures OnCdf(rs.points, Cdf(KeysOf(data)))
  {
    hide Approximates;
    hide TableExact;
    hide Increasing;
    hide Cdf;
    hide Builder.TableValid;
    hide Curve;
    hide Drawn;
    hide Greedy;
    hide GreedyPoints;
    hide Below;
    ghost var keys := KeysOf(data);
    var builder := new Builder(w, data[0].0, data[|data| - 1].0, numRadixBits, maxError);
    for i := 0 to |data|
      invariant builder.Valid() && builder.keys == keys[..i] && fresh(builder) && fresh(builder.radixTable)
      invariant builder.prevKey == if i == 0 then data[0].0 else data[i - 1].0
    {
      builder.AddKey(data[i].0);
      assert keys[..i + 1] == keys[..i] + [data[i].0];
    }
    assert keys[..|data|] == keys;
    TwoPoints(keys);
    rs := builder.Finalize();
  }

  /** The spline of an empty map spans all keys of w bits. */
  method BuildEmpty(w: nat, numRadixBits: nat, maxError: nat) returns (rs: RadixSpline)
    requires w > 0
    ensures rs.minKey == 0 && rs.maxKey == Pow2(w) - 1 && rs.maxError == maxError
    ensures rs.numKeys == 0 && rs.points == []
  {
    Pow2Order(1, w);
    assert Pow2(1) == 2;
    var max: nat := Pow2(w) - 1;
    var builder := new Builder(w, 0, max, numRadixBits, maxError);
    rs := builder.Finalize();
  }

  /** Copies the input and sorts it when the scan finds it unsorted. */
  method CopySorted<V>(input: seq<(nat, V)>) returns (copy: seq<(nat, V)>)
    requires input != []
    ensures SortedByKey(copy) && multiset(copy) == multiset(input)
    ensures SortedByKey(input) ==> copy == input
  {
    var isSorted, previousKey := true, input[0].0;
    copy := [];
    for i := 0 to |input|
      invariant copy == input[..i]
      invariant previousKey == if i == 0 then input[0].0 else input[i - 1].0
      invariant isSorted <==> SortedByKey(copy)
    {
      isSorted := isSorted && input[i].0 >= previousKey;
      previousKey := input[i].0;
      copy := copy + [input[i]];
    }
    assert input[..|input|] == input;
    if !isSorted {
      copy := SortByKey(copy);
    }
  }

  class MultiMap<V> {
    var data: seq<(nat, V)>
    var rs: RadixSpline

    /** Sorted data, and a spline built over its keys. */
    ghost predicate Valid()
      reads this
    {
      && SortedByKey(data) && rs.numKeys == |data|
      && if data == [] then rs.minKey == 0 && rs.points == []
         else Serves(rs, KeysOf(data)) && OnCdf(rs.points, Cdf(KeysOf(data))) && (UniqueMax(data) ==> Accurate())
    }

    /** The empty map has no spline segment to search, except for the smallest key. */
    ghost predicate Searchable(key: nat)
      reads this
    {
      data != [] || key == 0
    }

    /** The spline estimates the first occurrence of every key within the error. */
    ghost predicate Accurate()
      reads this
    {
      Approximates(rs.points, Cdf(KeysOf(data)), rs.maxError)
    }

    /** Copies the input in order and builds the spline over it in one pass. */
    constructor (w: nat, input: seq<(nat, V)>, numRadixBits: nat, maxError: nat)
      requires w > 0 && forall e :: e in input ==> e.0 < Pow2(w)
      requires input == [] || exists i, j :: 0 <= i < |input| && 0 <= j < |input| && input[i].0 < input[j].0
      ensures Valid() && multiset(data) == multiset(input) && rs.maxError == maxError
      ensures SortedByKey(input) ==> data == input
    {
      hide Approximates;
      hide SplineValid;
      hide Cdf;
      var copy: seq<(nat, V)> := [];
      var spline;
      if input == [] {
        spline := BuildEmpty(w, numRadixBits, maxError);
      } else {
        copy := CopySorted(input);
        EndsDiffer(w, input, copy);
        spline := BuildSpline(w, copy, numRadixBits, maxError);
      }
      data, rs := copy, spline;
    }

    /** Every query, present or not, is answered with its place exactly when every gap between
        different keys passes the test. */
    lemma AllPlacesIff()
      requires Valid() && data != []
      ensures (forall key: nat :: Clamp(Place(data, key), BoundFor(rs, key)) == Place(data, key))
              <==> GapsCovered(rs, KeysOf(data))
    {
      hide SplineValid;
      hide BoundFor;
      hide Place;
      hide GapsCovered;
      BoundCoversIff(rs, KeysOf(data));
      forall key: nat, r: nat | PlaceOf(KeysOf(data), key, r)
        ensures r == Place(data, key)
      {
        PlaceUnique(data, key, r);
      }
      forall key: nat
        ensures PlaceOf(KeysOf(data), key, Place(data, key))
      {
      }
    }

    lemma PresentInBound(key: nat)
      requires Valid() && Accurate() && exists e :: e in data && e.0 == key
      ensures Clamp(Place(data, key), BoundFor(rs, key)) == Place(data, key)
    {
      hide SplineValid;
      hide Approximates;
      hide BoundFor;
      PlaceOfPresent(data, key);
      PresentCovered(rs, KeysOf(data), Place(data, key));
    }

    lemma TwiceSuffices()
      requires Valid() && data != [] && Accurate() && AtMostTwice(KeysOf(data))
      ensures GapsCovered(rs, KeysOf(data))
    {
      hide SplineValid;
      hide Approximates;
      hide GapsCovered;
      TwiceCovered(rs, KeysOf(data));
    }

    /** What the search bound of one key means for its answer. */
    lemma PlaceInBound(key: nat)
      requires Valid() && Searchable(key)
      requires data == [] || GapsCovered(rs, KeysOf(data))
               || (Accurate() && (AtMostTwice(KeysOf(data)) || exists e :: e in data && e.0 == key))
      ensures Clamp(Place(data, key), BoundFor(rs, key)) == Place(data, key)
    {
      hide SplineValid;
      hide Approximates;
      hide GapsCovered;
      hide BoundFor;
      hide Place;
      if data != [] {
        AllPlacesIff();
        if Accurate() && AtMostTwice(KeysOf(data)) {
          TwiceSuffices();
        } else if Accurate() && exists e :: e in data && e.0 == key {
          PresentInBound(key);
        }
      }
    }

    /** The place of the key, moved into the search bound. This is the lower bound over the
        whole array for every present key when the spline is accurate, and for every key,
        present or not, exactly when all gaps pass their test; so when no key occurs more than
        twice. */
    method LowerBoundOf(key: nat) returns (r: nat)
      requires Valid() && Searchable(key)
      ensures r == Clamp(Place(data, key), BoundFor(rs, key))
      ensures r <= |data|
      ensures data == [] || GapsCovered(rs, KeysOf(data)) ==> r == Place(data, key)
      ensures data != [] && Accurate() && (exists e :: e in data && e.0 == key) ==> r == Place(data, key)
      ensures data != [] && Accurate() && AtMostTwice(KeysOf(data)) ==> r == Place(data, key)
    {
      hide Approximates;
      hide SplineValid;
      hide Cdf;
      hide BoundFor;
      hide Place;
      hide GapsCovered;
      if data == [] || GapsCovered(rs, KeysOf(data))
         || (Accurate() && (AtMostTwice(KeysOf(data)) || exists e :: e in data && e.0 == key))
      {
        PlaceInBound(key);
      }
      hide Accurate;
      hide AtMostTwice;
      var bound := GetSearchBound(rs, key);
      r := LowerBound(data, bound.begin, bound.end, key, KeyLess);
      ClampSplits(data, bound, key, r);
    }

    /** The first entry with the given key, or the end. */
    method Find(key: nat) returns (r: nat)
      requires Valid() && Searchable(key)
      ensures r <= |data| && (r < |data| ==> data[r].0 == key)
      ensures (forall e :: e in data ==> e.0 != key) ==> r == |data|
      ensures data != [] && (Accurate() || GapsCovered(rs, KeysOf(data))) && (exists e :: e in data && e.0 == key) ==>
                r < |data| && r == Place(data, key)
    {
      r := LowerBoundOf(key);
      if exists e :: e in data && e.0 == key {
        PlaceOfPresent(data, key);
      }
      if !(r != |data| && data[r].0 == key) {
        r := |data|;
      }
    }
  }

  lemma PlaceUnique<V>(data: seq<(nat, V)>, key: nat, r: nat)
    requires SortedByKey(data) && PlaceOf(KeysOf(data), key, r)
    ensures r == Place(data, key)
  {
    if r > 0 {
      PlaceSplits(data, key, r - 1);
    }
    if r < |data| {
      PlaceSplits(data, key, r);
    }
  }

  function Clamp(r: nat, bound: SearchBound): nat {
    if r < bound.begin then bound.begin else if r > bound.end then bound.end else r
  }

  lemma PlaceOfPresent<V>(data: seq<(nat, V)>, key: nat)
    requires SortedByKey(data) && exists e :: e in data && e.0 == key
    ensures Place(data, key) < |data| && data[Place(data, key)].0 == key
  {
    var e :| e in data && e.0 == key;
    var i :| 0 <= i < |data| && data[i] == e;
    PlaceSplits(data, key, i);
  }

  lemma PlaceSplits<V>(data: seq<(nat, V)>, key: nat, i: nat)
    requires SortedByKey(data) && i < |data|
    ensures data[i].0 < key <==> i < Place(data, key)
  {
    var r := Place(data, key);
    if i < r {
      assert data[i].0 <= data[r - 1].0;
    } else {
      assert data[r].0 <= data[i].0;
    }
  }

  /** The lower bound inside a range is the place of the key, moved into the range. */
  lemma ClampSplits<V>(data: seq<(nat, V)>, bound: SearchBound, key: nat, r: nat)
    requires SortedByKey(data) && Splits(data, bound.begin, bound.end, key, KeyLess, r)
    ensures r == Clamp(Place(data, key), bound)
  {
    if r > bound.begin {
      PlaceSplits(data, key, r - 1);
    }
    if r < bound.end {
      PlaceSplits(data, key, r);
    }
  }

  /** Where a key belongs in sorted data. */
  ghost function Place<V>(data: seq<(nat, V)>, key: nat): (r: nat)
    ensures r <= |data|
    ensures r > 0 ==> data[r - 1].0 < key
    ensures r < |data| ==> SortedByKey(data) ==> key <= data[r].0
  {
    if data == [] then 0
    else if data[|data| - 1].0 < key then |data|
    else Place(data[..|data| - 1], key)
  }

  // ---------------------------------------------------------------- a missed key

  const LONG_RUN: seq<(nat, bool)> := [(0, true), (1, true), (1, true), (1, true), (9, true)]

  const LONG_RUN_POINTS: seq<Coord> := [Coord(0, 0), Coord(1, 1), Coord(9, 4)]

  lemma LongRunCdf(keys: seq<nat>)
    requires keys == KeysOf(LONG_RUN)
    ensures keys == [0, 1, 1, 1, 9] && Cdf(keys) == LONG_RUN_POINTS
  {
    assert keys == [0, 1, 1, 1, 9];
    assert keys[..4] == [0, 1, 1, 1] && keys[..4][..3] == [0, 1, 1];
    assert [0, 1, 1][..2] == [0, 1] && [0, 1][..1] == [0] && [0][..0] == [];
    assert Cdf([0]) == [Coord(0, 0)];
    assert Cdf([0, 1]) == [Coord(0, 0), Coord(1, 1)];
    assert Cdf([0, 1, 1]) == Cdf([0, 1]);
    assert Cdf(keys[..4]) == Cdf([0, 1, 1]);
  }

  /** Spline points taken from three points of a distribution, up to its last one. */
  lemma TwoOrThree(points: seq<Coord>, a: Coord, b: Coord, c: Coord)
    requires Increasing(points) && |points| >= 2 && OnCdf(points, [a, b, c])
    requires a.x < b.x < c.x && points[0] == a && points[|points| - 1] == c
    ensures points == [a, c] || points == [a, b, c]
  {
    var n := |points| - 1;
    forall j | 0 < j < n
      ensures points[j] == b
    {
      assert points[0].x < points[j].x < points[n].x && points[j] in [a, b, c];
    }
    var ordered := n > 2 && points[1].x < points[2].x;
  }

  /** Without error a point off the line has to become a spline point. */
  lemma BendIsKept(points: seq<Coord>, cdf: seq<Coord>, a: Coord, b: Coord, c: Coord)
    requires cdf == [a, b, c] && Approximates(points, cdf, 0) && OnCdf(points, cdf) && points[|points| - 1] == c
    requires a.x < b.x < c.x && !Within(a, c, b, 0)
    ensures points == [a, b, c]
  {
    TwoOrThree(points, a, b, c);
    hide Approximates;
    hide Within;
    if |points| == 2 {
      OneSegment(points, cdf, 1);
    }
  }

  lemma OneSegment(points: seq<Coord>, cdf: seq<Coord>, k: nat)
    requires Approximates(points, cdf, 0) && |points| == 2
    requires k < |cdf| && points[0].x <= cdf[k].x <= points[1].x
    ensures Within(points[0], points[1], cdf[k], 0)
  {
  }

  lemma LongRunPoints(points: seq<Coord>)
    requires Approximates(points, LONG_RUN_POINTS, 0) && OnCdf(points, LONG_RUN_POINTS)
    requires points[|points| - 1] == Coord(9, 4)
    ensures points == LONG_RUN_POINTS
  {
    hide Approximates;
    hide OnCdf;
    BendIsKept(points, LONG_RUN_POINTS, Coord(0, 0), Coord(1, 1), Coord(9, 4));
  }

  lemma LongRunInput()
    ensures SortedByKey(LONG_RUN)
    ensures exists i, j :: 0 <= i < |LONG_RUN| && 0 <= j < |LONG_RUN| && LONG_RUN[i].0 < LONG_RUN[j].0
  {
    assert LONG_RUN[0].0 < LONG_RUN[4].0;
  }

  lemma LongRunEstimate(rs: RadixSpline)
    requires SplineValid(rs) && rs.points == LONG_RUN_POINTS
    ensures EstimatedPosition(rs, 2) == 1.375
  {
    hide TableExact;
    CountBelowUnique(rs.points, 2, 2);
    assert LineAt(Coord(1, 1), Coord(9, 4), 2) == 1.375;
  }

  /** A map over the keys 0, 1, 1, 1 and 9 with maxError 0: the place of key 2 is 4, and the
      search, although the spline is accurate, stops at 3. */
  method LongRunMissed(w: nat, numRadixBits: nat) returns (m: MultiMap<bool>, r: nat)
    requires w > 0 && 9 < Pow2(w)
    ensures m.Valid() && m.Accurate() && m.data == LONG_RUN && m.rs.maxError == 0
    ensures Place(m.data, 2) == 4 && r == 3
  {
    hide Approximates;
    hide SplineValid;
    hide OnCdf;
    LongRunInput();
    hide SortedByKey;
    m := new MultiMap(w, LONG_RUN, numRadixBits, 0);
    LongRunCdf(KeysOf(m.data));
    hide Cdf;
    hide KeysOf;
    LongRunAnswer(m.rs);
    PlaceUnique(m.data, 2, 4);
    r := m.LowerBoundOf(2);
  }

  lemma LongRunAnswer(rs: RadixSpline)
    requires SplineValid(rs) && rs.numKeys == 5 && rs.maxKey == 9 && rs.maxError == 0
    requires Approximates(rs.points, LONG_RUN_POINTS, 0) && OnCdf(rs.points, LONG_RUN_POINTS)
    ensures BoundFor(rs, 2) == SearchBound(1, 3)
  {
    LongRunPoints(rs.points);
    LongRunEstimate(rs);
  }
}
