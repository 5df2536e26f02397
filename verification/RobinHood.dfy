/** The Robin Hood hash table: an insertion takes the slot of any key that stands
    nearer to its home bucket and carries that key on. */
module RobinHood {
  import opened Bits
  import opened ProbingFuncs
  import opened Tables
  import opened Wrappers

  /** psl is the probing step at which the key was placed. */
  datatype Slot<+P> = Slot(key: nat, psl: nat, payload: P)

  /** Looped: the inserted key itself was met as a rich slot. Cycled: the path of the
      carried key came back. Both are thrown. */
  datatype Outcome = Inserted | Refused | Looped | Cycled

  type Table<P> = seq<seq<Slot<P>>>

  /** Every slot on the path from o before p is taken by a key that stands at least as
      far from its home. */
  ghost predicate Passed<P>(c: Config, t: Table<P>, o: nat, p: Pos)
    requires Shaped(c, t) && o < c.n
  {
    forall q: Pos :: q.slot < c.size && q.Before(p) ==>
      SlotAt(c, t, o, q).key != c.sentinel && SlotAt(c, t, o, q).psl >= q.step
  }

  /** No slot on the path before p holds key. */
  ghost predicate Unmet<P>(c: Config, t: Table<P>, o: nat, p: Pos, key: nat)
    requires Shaped(c, t) && o < c.n
  {
    forall q: Pos :: q.slot < c.size && q.Before(p) ==> SlotAt(c, t, o, q).key != key
  }

  /** Key is stored at its psl-th probe, behind slots no richer than itself. */
  ghost predicate Placed<P>(c: Config, t: Table<P>, key: nat, p: Pos)
    requires Shaped(c, t)
  {
    && key != c.sentinel && p.slot < c.size && c.NoReturn(c.home(key), p.step)
    && SlotAt(c, t, c.home(key), p).key == key && SlotAt(c, t, c.home(key), p).psl == p.step
    && Passed(c, t, c.home(key), p)
  }

  /** The table stores exactly the keys of at, each at its one place. */
  ghost predicate Stored<P>(c: Config, t: Table<P>, at: map<nat, Pos>) {
    && Shaped(c, t)
    && (forall key :: key in at ==> Placed(c, t, key, at[key]))
    && Owned(c, t, at)
  }

  /** Every taken slot is the one place of its key. */
  ghost predicate Owned<P>(c: Config, t: Table<P>, at: map<nat, Pos>)
    requires Shaped(c, t)
  {
    forall b, i :: 0 <= b < c.n && 0 <= i < c.size && t[b][i].key != c.sentinel ==>
      t[b][i].key in at && Lands(c, t[b][i].key, at[t[b][i].key], b, i)
  }

  /** The table as a map. */
  ghost function MapOf<P>(c: Config, t: Table<P>, at: map<nat, Pos>): map<nat, P>
    requires Stored(c, t, at)
  {
    map key | key in at :: ValueOf(c, t, at, key)
  }

  ghost function ValueOf<P>(c: Config, t: Table<P>, at: map<nat, Pos>, key: nat): P
    requires Stored(c, t, at) && key in at
  {
    assert Placed(c, t, key, at[key]);
    SlotAt(c, t, c.home(key), at[key]).payload
  }

  /** Taken slots stay taken and their psl never drops. */
  ghost predicate Higher<P>(c: Config, t: Table<P>, t': Table<P>)
    requires Shaped(c, t) && Shaped(c, t')
  {
    forall b, i :: 0 <= b < c.n && 0 <= i < c.size && t[b][i].key != c.sentinel ==>
      t'[b][i].key != c.sentinel && t'[b][i].psl >= t[b][i].psl
  }

  /** The same slots are taken, by whatever keys. */
  ghost predicate SameTaken<P>(c: Config, t: Table<P>, t': Table<P>)
    requires Shaped(c, t) && Shaped(c, t')
  {
    forall b, i :: 0 <= b < c.n && 0 <= i < c.size ==> (t'[b][i].key != c.sentinel <==> t[b][i].key != c.sentinel)
  }

  // ---------------------------------------------------------------- searching

  lemma StoredKeys<P>(c: Config, t: Table<P>, at: map<nat, Pos>)
    requires Stored(c, t, at)
    ensures Shaped(c, t) && c.sentinel !in MapOf(c, t, at) && MapOf(c, t, at).Keys == at.Keys
  {
    var placed := c.sentinel in at && Placed(c, t, c.sentinel, at[c.sentinel]);
  }

  /** A taken slot holds its key's only entry, at the probing step it records. */
  lemma SlotHolds<P>(c: Config, t: Table<P>, at: map<nat, Pos>, b: nat, i: nat)
    requires Stored(c, t, at) && b < c.n && i < c.size && t[b][i].key != c.sentinel
    ensures t[b][i].key in at && MapOf(c, t, at)[t[b][i].key] == t[b][i].payload
    ensures at[t[b][i].key] == Pos(t[b][i].psl, i) && c.Probe(c.home(t[b][i].key), t[b][i].psl) == b
    ensures c.NoReturn(c.home(t[b][i].key), t[b][i].psl) && Passed(c, t, c.home(t[b][i].key), Pos(t[b][i].psl, i))
  {
    var key := t[b][i].key;
    assert Lands(c, key, at[key], b, i);
    assert Placed(c, t, key, at[key]);
    assert SlotAt(c, t, c.home(key), at[key]) == t[b][i];
  }

  /** A walk for a stored key that has not met it yet stands on that key or on a slot that
      is taken and not richer. */
  lemma WalkMeets<P>(c: Config, t: Table<P>, key: nat, q: Pos, p: Pos)
    requires Shaped(c, t) && Placed(c, t, key, q) && p.slot < c.size && Unmet(c, t, c.home(key), p, key)
    ensures var s := SlotAt(c, t, c.home(key), p); s.key == key || (s.key != c.sentinel && s.psl >= p.step)
  {
    assert p.Before(q) || q.Before(p) || p == q;
  }

  /** Where an unmet key meets an empty slot or a richer key, it is not stored. */
  lemma WalkEndsAbsent<P>(c: Config, t: Table<P>, at: map<nat, Pos>, key: nat, p: Pos)
    requires Stored(c, t, at) && p.slot < c.size && Unmet(c, t, c.home(key), p, key)
    requires var s := SlotAt(c, t, c.home(key), p); s.key != key && (s.key == c.sentinel || s.psl < p.step)
    ensures key !in at
  {
    hide Unmet;
    if key in at {
      WalkMeets(c, t, key, at[key], p);
    }
  }

  /** Where the path of an unmet key comes back, it is not stored. */
  lemma ReturnEndsAbsent<P>(c: Config, t: Table<P>, at: map<nat, Pos>, key: nat, step: nat)
    requires Stored(c, t, at) && Unmet(c, t, c.home(key), Pos(step, c.size), key)
    requires !c.NoReturn(c.home(key), step + 1)
    ensures key !in at
  {
    hide Unmet;
    if key in at {
      ReturnMeets(c, t, key, at[key], step);
    }
  }

  /** Every place of a key lies before the return of its path. */
  lemma ReturnMeets<P>(c: Config, t: Table<P>, key: nat, q: Pos, step: nat)
    requires Shaped(c, t) && Placed(c, t, key, q) && !c.NoReturn(c.home(key), step + 1)
    ensures q.Before(Pos(step, c.size)) && !Unmet(c, t, c.home(key), Pos(step, c.size), key)
  {
  }

  lemma StartWalk<P>(c: Config, t: Table<P>, key: nat)
    requires Shaped(c, t)
    ensures var o := c.home(key);
            && o < c.n && c.Probe(o, 0) == o && c.NoReturn(o, 0)
            && Passed(c, t, o, Pos(0, 0)) && Unmet(c, t, o, Pos(0, 0), key)
  {
    ProbeBounds(c, c.home(key), 0);
  }

  lemma PassedMore<P>(c: Config, t: Table<P>, o: nat, step: nat, i: nat)
    requires Shaped(c, t) && o < c.n && i < c.size && Passed(c, t, o, Pos(step, i))
    requires SlotAt(c, t, o, Pos(step, i)).key != c.sentinel && SlotAt(c, t, o, Pos(step, i)).psl >= step
    ensures Passed(c, t, o, Pos(step, i + 1))
  {
    forall q: Pos | q.slot < c.size && q.Before(Pos(step, i + 1))
      ensures SlotAt(c, t, o, q).key != c.sentinel && SlotAt(c, t, o, q).psl >= q.step
    {
      assert q.Before(Pos(step, i)) || q == Pos(step, i);
    }
  }

  lemma UnmetMore<P>(c: Config, t: Table<P>, o: nat, step: nat, i: nat, key: nat)
    requires Shaped(c, t) && o < c.n && i < c.size && Unmet(c, t, o, Pos(step, i), key)
    requires SlotAt(c, t, o, Pos(step, i)).key != key
    ensures Unmet(c, t, o, Pos(step, i + 1), key)
  {
    forall q: Pos | q.slot < c.size && q.Before(Pos(step, i + 1))
      ensures SlotAt(c, t, o, q).key != key
    {
      assert q.Before(Pos(step, i)) || q == Pos(step, i);
    }
  }

  lemma NextBucket<P>(c: Config, t: Table<P>, o: nat, step: nat, key: nat)
    requires Shaped(c, t) && o < c.n && c.NoReturn(o, step) && c.Probe(o, step + 1) != o
    ensures c.NoReturn(o, step + 1)
    ensures Passed(c, t, o, Pos(step, c.size)) ==> Passed(c, t, o, Pos(step + 1, 0))
    ensures Unmet(c, t, o, Pos(step, c.size), key) ==> Unmet(c, t, o, Pos(step + 1, 0), key)
  {
    forall q: Pos | q.slot < c.size && q.Before(Pos(step + 1, 0))
      ensures q.Before(Pos(step, c.size))
    {
    }
  }

  // ---------------------------------------------------------------- writing a slot

  /** A slot may be written when it is empty or its psl rises. */
  ghost predicate Raises<P>(c: Config, before: Slot<P>, after: Slot<P>) {
    after.key != c.sentinel && (before.key == c.sentinel || before.psl < after.psl)
  }

  lemma PassedWrite<P>(c: Config, t: Table<P>, b: nat, i: nat, s: Slot<P>, o: nat, p: Pos)
    requires Shaped(c, t) && b < c.n && i < c.size && o < c.n && Raises(c, t[b][i], s) && Passed(c, t, o, p)
    ensures Shaped(c, Write(t, b, i, s)) && Passed(c, Write(t, b, i, s), o, p)
  {
    forall q: Pos | q.slot < c.size && q.Before(p)
      ensures SlotAt(c, Write(t, b, i, s), o, q).key != c.sentinel && SlotAt(c, Write(t, b, i, s), o, q).psl >= q.step
    {
      SlotAtWrite(c, t, b, i, s, o, q);
    }
  }

  lemma HigherWrite<P>(c: Config, t0: Table<P>, t: Table<P>, b: nat, i: nat, s: Slot<P>)
    requires Shaped(c, t0) && Shaped(c, t) && Higher(c, t0, t) && b < c.n && i < c.size && Raises(c, t[b][i], s)
    ensures Shaped(c, Write(t, b, i, s)) && Higher(c, t0, Write(t, b, i, s))
  {
  }

  /** A key elsewhere stays placed when a slot is written. */
  lemma StaysPlaced<P>(c: Config, t: Table<P>, b: nat, i: nat, s: Slot<P>, k: nat, p: Pos)
    requires Shaped(c, t) && b < c.n && i < c.size && Placed(c, t, k, p)
    requires Raises(c, t[b][i], s) && t[b][i].key != k
    ensures Shaped(c, Write(t, b, i, s)) && Placed(c, Write(t, b, i, s), k, p)
    ensures SlotAt(c, Write(t, b, i, s), c.home(k), p) == SlotAt(c, t, c.home(k), p)
  {
    SlotAtWrite(c, t, b, i, s, c.home(k), p);
    PassedWrite(c, t, b, i, s, c.home(k), p);
  }

  /** The written key is placed where its walk stands. */
  lemma NewlyPlaced<P>(c: Config, t: Table<P>, b: nat, key: nat, p: Pos, payload: P)
    requires Shaped(c, t) && key != c.sentinel && p.slot < c.size && b < c.n
    requires Passed(c, t, c.home(key), p) && c.NoReturn(c.home(key), p.step) && b == c.Probe(c.home(key), p.step)
    requires Raises(c, t[b][p.slot], Slot(key, p.step, payload))
    ensures var t' := Write(t, b, p.slot, Slot(key, p.step, payload));
            Shaped(c, t') && Placed(c, t', key, p) && SlotAt(c, t', c.home(key), p) == Slot(key, p.step, payload)
  {
    SlotAtWrite(c, t, b, p.slot, Slot(key, p.step, payload), c.home(key), p);
    PassedWrite(c, t, b, p.slot, Slot(key, p.step, payload), c.home(key), p);
  }

  /** The places after a key took slot (b, i), whoever was there. */
  ghost function Moved<P>(c: Config, t: Table<P>, at: map<nat, Pos>, b: nat, p: Pos, key: nat): map<nat, Pos>
    requires Shaped(c, t) && b < c.n && p.slot < c.size
  {
    (at - {t[b][p.slot].key})[key := p]
  }

  /** After taking an empty or richer slot the new key is stored there, and every other payload
      but that of the displaced key is as it was. */
  lemma TakeStores<P>(c: Config, t: Table<P>, at: map<nat, Pos>, b: nat, key: nat, p: Pos, payload: P)
    requires Stored(c, t, at) && key != c.sentinel && key !in at && p.slot < c.size && b < c.n
    requires Passed(c, t, c.home(key), p) && c.NoReturn(c.home(key), p.step) && b == c.Probe(c.home(key), p.step)
    requires Raises(c, t[b][p.slot], Slot(key, p.step, payload))
    ensures var t' := Write(t, b, p.slot, Slot(key, p.step, payload)); var at' := Moved(c, t, at, b, p, key);
            && Stored(c, t', at')
            && forall k :: k in at' ==> ValueOf(c, t', at', k) == if k == key then payload else ValueOf(c, t, at, k)
  {
    TakeLands(c, t, at, b, key, p, payload);
    hide Owned;
    hide Raises;
    hide Passed;
    TakePlaces(c, t, at, b, key, p, payload);
    hide Placed;
    hide SlotAt;
  }

  /** Taking an empty or richer slot: every other key stays placed, and the map loses the
      key that stood there and gains the one that was carried. */
  lemma TakeSlot<P>(c: Config, t: Table<P>, at: map<nat, Pos>, b: nat, key: nat, p: Pos, payload: P)
    requires Stored(c, t, at) && key != c.sentinel && key !in at && p.slot < c.size && b < c.n
    requires Passed(c, t, c.home(key), p) && c.NoReturn(c.home(key), p.step) && b == c.Probe(c.home(key), p.step)
    requires Raises(c, t[b][p.slot], Slot(key, p.step, payload))
    ensures var t' := Write(t, b, p.slot, Slot(key, p.step, payload)); var at' := Moved(c, t, at, b, p, key);
            Stored(c, t', at') && MapOf(c, t', at') == (MapOf(c, t, at) - {t[b][p.slot].key})[key := payload]
  {
    hide Passed;
    hide Placed;
    hide Owned;
    hide Raises;
    hide ValueOf;
    TakeStores(c, t, at, b, key, p, payload);
    var t': Table<P>, at' := Write(t, b, p.slot, Slot(key, p.step, payload)), Moved(c, t, at, b, p, key);
    hide Stored;
    OneForAnother(MapOf(c, t, at), MapOf(c, t', at'), t[b][p.slot].key, key, payload);
  }

  lemma TakePlaces<P>(c: Config, t: Table<P>, at: map<nat, Pos>, b: nat, key: nat, p: Pos, payload: P)
    requires Stored(c, t, at) && key != c.sentinel && key !in at && p.slot < c.size && b < c.n
    requires Passed(c, t, c.home(key), p) && c.NoReturn(c.home(key), p.step) && b == c.Probe(c.home(key), p.step)
    requires Raises(c, t[b][p.slot], Slot(key, p.step, payload))
    ensures var s := Slot(key, p.step, payload);
            var t' := Write(t, b, p.slot, s); var at' := Moved(c, t, at, b, p, key);
            && Shaped(c, t') && (forall k :: k in at' ==> Placed(c, t', k, at'[k]))
            && forall k :: k in at' ==>
                 SlotAt(c, t', c.home(k), at'[k]) == if k == key then s else SlotAt(c, t, c.home(k), at[k])
  {
    hide Passed;
    var s := Slot(key, p.step, payload);
    var t': Table<P>, at' := Write(t, b, p.slot, s), Moved(c, t, at, b, p, key);
    NewlyPlaced(c, t, b, key, p, payload);
    forall k: nat | k in at'
      ensures Placed(c, t', k, at'[k])
      ensures SlotAt(c, t', c.home(k), at'[k]) == if k == key then s else SlotAt(c, t, c.home(k), at[k])
    {
      if k != key {
        StaysPlaced(c, t, b, p.slot, s, k, at[k]);
      }
    }
  }

  lemma TakeLands<P>(c: Config, t: Table<P>, at: map<nat, Pos>, b: nat, key: nat, p: Pos, payload: P)
    requires Stored(c, t, at) && key !in at && p.slot < c.size && b < c.n && b == c.Probe(c.home(key), p.step)
    ensures var t' := Write(t, b, p.slot, Slot(key, p.step, payload));
            Shaped(c, t') && Owned(c, t', Moved(c, t, at, b, p, key))
  {
    hide Placed;
    var t': Table<P> := Write(t, b, p.slot, Slot(key, p.step, payload));
    var at' := Moved(c, t, at, b, p, key);
    var gone := t[b][p.slot].key;
    assert gone != c.sentinel ==> Lands(c, gone, at[gone], b, p.slot);
    forall j: nat, i: nat | j < c.n && i < c.size && t'[j][i].key != c.sentinel
      ensures t'[j][i].key in at' && Lands(c, t'[j][i].key, at'[t'[j][i].key], j, i)
    {
      if j != b || i != p.slot {
        assert t'[j][i] == t[j][i];
        assert Lands(c, t[j][i].key, at[t[j][i].key], j, i);
      }
    }
  }

  /** The displaced key can go on from the slot after the one it lost. */
  lemma CarryOn<P>(c: Config, t: Table<P>, at: map<nat, Pos>, b: nat, i: nat, s: Slot<P>)
    requires Stored(c, t, at) && b < c.n && i < c.size && t[b][i].key != c.sentinel && Raises(c, t[b][i], s)
    ensures var r := t[b][i]; var t' := Write(t, b, i, s);
            && Shaped(c, t') && c.Probe(c.home(r.key), r.psl) == b && c.NoReturn(c.home(r.key), r.psl)
            && Passed(c, t', c.home(r.key), Pos(r.psl, i + 1))
  {
    SlotHolds(c, t, at, b, i);
    var r := t[b][i];
    PassedWrite(c, t, b, i, s, c.home(r.key), Pos(r.psl, i));
    SlotAtWrite(c, t, b, i, s, c.home(r.key), Pos(r.psl, i));
    PassedMore(c, Write(t, b, i, s), c.home(r.key), r.psl, i);
  }

  // ---------------------------------------------------------------- termination

  /** How far the psl of a taken slot can still rise. */
  ghost function SlotRoom<P>(c: Config, s: Slot<P>): nat {
    if s.key == c.sentinel || s.psl >= c.n then 0 else c.n - s.psl
  }

  ghost function RowRoom<P>(c: Config, row: seq<Slot<P>>): nat {
    if row == [] then 0 else RowRoom(c, row[..|row| - 1]) + SlotRoom(c, row[|row| - 1])
  }

  ghost function Room<P>(c: Config, t: Table<P>): nat {
    if t == [] then 0 else Room(c, t[..|t| - 1]) + RowRoom(c, t[|t| - 1])
  }

  lemma {:induction false} RowRoomWrite<P>(c: Config, row: seq<Slot<P>>, i: nat, s: Slot<P>)
    requires i < |row|
    ensures RowRoom(c, row[i := s]) == RowRoom(c, row) - SlotRoom(c, row[i]) + SlotRoom(c, s)
  {
    var k := |row| - 1;
    if i == k {
      assert row[i := s][..k] == row[..k];
    } else {
      assert row[i := s][..k] == row[..k][i := s];
      RowRoomWrite(c, row[..k], i, s);
    }
  }

  /** Every swap raises a psl, so the room shrinks. */
  lemma {:induction false} SwapShrinksRoom<P>(c: Config, t: Table<P>, b: nat, i: nat, s: Slot<P>)
    requires b < |t| && i < |t[b]| && t[b][i].key != c.sentinel && t[b][i].psl < s.psl < c.n
    ensures Room(c, Write(t, b, i, s)) < Room(c, t)
  {
    var k := |t| - 1;
    if b == k {
      assert Write(t, b, i, s)[..k] == t[..k];
      RowRoomWrite(c, t[b], i, s);
    } else {
      assert Write(t, b, i, s)[..k] == Write(t[..k], b, i, s);
      SwapShrinksRoom(c, t[..k], b, i, s);
    }
  }

  // ---------------------------------------------------------------- holes

  ghost predicate HasHole<P>(c: Config, t: Table<P>)
    requires Shaped(c, t)
  {
    exists b, i :: 0 <= b < c.n && 0 <= i < c.size && t[b][i].key == c.sentinel
  }

  /** How many buckets linear probing walks from b to e. */
  ghost function Gap(n: nat, b: nat, e: nat): nat
    requires b < n && e < n
  {
    if e >= b then e - b else e + n - b
  }

  /** Seen from the hole's bucket e, the place of a key lies behind slot i of bucket b. */
  ghost predicate Behind(c: Config, key: nat, p: Pos, e: nat, b: nat, i: nat)
    requires c.Ok() && e < c.n && b < c.n
  {
    ProbeBounds(c, c.home(key), p.step);
    var kb := c.Probe(c.home(key), p.step);
    Gap(c.n, kb, e) > Gap(c.n, b, e) || (kb == b && p.slot < i)
  }

  /** Leaving a full bucket, the walk comes one bucket nearer to the hole. */
  lemma GapShrinks<P>(c: Config, t: Table<P>, o: nat, step: nat, e: nat, i: nat)
    requires Shaped(c, t) && !c.quad && o < c.n && Passed(c, t, o, Pos(step, c.size))
    requires e < c.n && i < c.size && t[e][i].key == c.sentinel
    ensures c.Probe(o, step) < c.n && c.Probe(o, step + 1) < c.n
    ensures Gap(c.n, c.Probe(o, step + 1), e) < Gap(c.n, c.Probe(o, step), e)
  {
    ProbeBounds(c, o, step);
    ProbeBounds(c, o, step + 1);
    var b := c.Probe(o, step);
    var s := SlotAt(c, t, o, Pos(step, i));
    ModSuccessor(o + step, c.n);
  }

  /** Every slot that the path of a key can reach is taken. */
  ghost predicate PathFull<P>(c: Config, t: Table<P>, key: nat)
    requires Shaped(c, t)
  {
    forall q: Pos :: q.slot < c.size && c.NoReturn(c.home(key), q.step) ==>
      SlotAt(c, t, c.home(key), q).key != c.sentinel
  }

  lemma ReturnMeansFull<P>(c: Config, t: Table<P>, key: nat, step: nat)
    requires Shaped(c, t) && Passed(c, t, c.home(key), Pos(step, c.size)) && !c.NoReturn(c.home(key), step + 1)
    ensures PathFull(c, t, key)
  {
    forall q: Pos | q.slot < c.size && c.NoReturn(c.home(key), q.step)
      ensures q.Before(Pos(step, c.size))
    {
    }
  }

  /** With linear probing a full path is a full table. */
  lemma LinearPathFull<P>(c: Config, t: Table<P>, key: nat)
    requires Shaped(c, t) && !c.quad
    ensures PathFull(c, t, key) <==> !HasHole(c, t)
  {
    var o := c.home(key);
    if PathFull(c, t, key) {
      forall b, i | 0 <= b < c.n && 0 <= i < c.size
        ensures t[b][i].key != c.sentinel
      {
        var step := LinearVisits(c, o, b);
        assert SlotAt(c, t, o, Pos(step, i)) == t[b][i];
      }
    } else {
      forall q: Pos {
        ProbeBounds(c, o, q.step);
      }
    }
  }

  // ---------------------------------------------------------------- insertion

  datatype Carried<+P> = Carried(key: nat, payload: P, step: nat)

  /** The table together with the carried key is the old map with the new key in it; until
      the first swap the new key itself is carried and the map is as it was. */
  ghost predicate Carrying<P>(c: Config, t: Table<P>, at: map<nat, Pos>, before: map<nat, P>, k: nat, p: P,
                              x: Carried<P>, swapped: bool)
    requires Stored(c, t, at)
  {
    && x.key != c.sentinel && k != c.sentinel
    && if swapped then k !in before && x.key !in at && k in at && MapOf(c, t, at)[x.key := x.payload] == before[k := p]
       else x.key == k && x.payload == p && MapOf(c, t, at) == before
  }

  /** The carried key has passed all slots of its path before slot i of its current bucket. */
  ghost predicate Walking<P>(c: Config, t: Table<P>, x: Carried<P>, b: nat, i: nat, swapped: bool)
    requires Shaped(c, t)
  {
    && b < c.n && b == c.Probe(c.home(x.key), x.step) && c.NoReturn(c.home(x.key), x.step)
    && Passed(c, t, c.home(x.key), Pos(x.step, i))
    && (!swapped ==> Unmet(c, t, c.home(x.key), Pos(x.step, i), x.key))
  }

  /** There is a hole, and the new key, once stored, lies behind the walk. */
  ghost predicate Ahead<P>(c: Config, t: Table<P>, at: map<nat, Pos>, hole: Option<Pos>, k: nat, b: nat, i: nat,
                           swapped: bool)
    requires Shaped(c, t) && b < c.n
  {
    hole.Some? ==>
      HoleAt(c, t, hole.value) && (swapped ==> k in at && Behind(c, k, at[k], hole.value.step, b, i))
  }

  /** An empty slot of a linearly probed table; the step of a hole is its bucket. */
  ghost predicate HoleAt<P>(c: Config, t: Table<P>, hole: Pos)
    requires Shaped(c, t)
  {
    !c.quad && hole.step < c.n && hole.slot < c.size && t[hole.step][hole.slot].key == c.sentinel
  }

  /** The carried key takes slot i of bucket b from a key it may rob. */
  ghost predicate Robs<P>(c: Config, t: Table<P>, x: Carried<P>, k: nat, b: nat, i: nat)
    requires Shaped(c, t)
  {
    && b < c.n && i < c.size && t[b][i].psl < x.step
    && t[b][i].key != c.sentinel && t[b][i].key != x.key && t[b][i].key != k
  }

  ghost function Robbed<P>(t: Table<P>, x: Carried<P>, b: nat, i: nat): Table<P>
    requires b < |t| && i < |t[b]|
  {
    Write(t, b, i, Slot(x.key, x.step, x.payload))
  }

  function Rich<P>(s: Slot<P>): Carried<P> {
    Carried(s.key, s.payload, s.psl)
  }

  // ---------------------------------------------------------------- runs

  /** An insertion on its way: the table, the carried key and the slot to examine next. */
  datatype Cursor<P> = Cursor(t: Table<P>, x: Carried<P>, b: nat, i: nat)

  ghost predicate InRange<P>(c: Config, s: Cursor<P>) {
    Shaped(c, s.t) && s.b < c.n && s.i <= c.size
  }

  /** How the insertion of k ends at a cursor, if it does; behind the last slot of a bucket
      it ends when the path comes back. */
  ghost function Halt<P>(c: Config, k: nat, s: Cursor<P>): Option<Outcome>
    requires InRange(c, s)
  {
    if s.i == c.size then
      if c.Probe(c.home(s.x.key), s.x.step + 1) == c.home(s.x.key) then Some(Cycled) else None
    else
      var slot := s.t[s.b][s.i];
      if slot.key == c.sentinel then Some(Inserted)
      else if slot.key == s.x.key then Some(Refused)
      else if slot.psl < s.x.step && slot.key == k then Some(Looped)
      else None
  }

  /** One slot robbed or passed, or one bucket left; a halted insertion stays. */
  ghost function Next<P>(c: Config, k: nat, s: Cursor<P>): (s': Cursor<P>)
    requires InRange(c, s)
    ensures InRange(c, s')
  {
    if Halt(c, k, s).Some? then s
    else if s.i == c.size then
      ProbeBounds(c, c.home(s.x.key), s.x.step + 1);
      Cursor(s.t, s.x.(step := s.x.step + 1), c.Probe(c.home(s.x.key), s.x.step + 1), 0)
    else if s.t[s.b][s.i].psl < s.x.step then Cursor(Robbed(s.t, s.x, s.b, s.i), Rich(s.t[s.b][s.i]), s.b, s.i + 1)
    else s.(i := s.i + 1)
  }

  ghost function After<P>(c: Config, k: nat, s: Cursor<P>, n: nat): (s': Cursor<P>)
    requires InRange(c, s)
    ensures InRange(c, s')
  {
    if n == 0 then s else Next(c, k, After(c, k, s, n - 1))
  }

  ghost predicate Reaches<P>(c: Config, k: nat, s: Cursor<P>, s': Cursor<P>)
    requires InRange(c, s)
  {
    exists n: nat :: After(c, k, s, n) == s'
  }

  /** The insertion of k that starts at s ends at e with outcome r and leaves table t. */
  ghost predicate Ends<P>(c: Config, k: nat, s: Cursor<P>, e: Cursor<P>, r: Outcome, t: Table<P>)
    requires InRange(c, s)
  {
    && InRange(c, e) && Reaches(c, k, s, e) && Halt(c, k, e) == Some(r)
    && t == if r == Inserted then Robbed(e.t, e.x, e.b, e.i) else e.t
  }

  lemma ReachesSelf<P>(c: Config, k: nat, s: Cursor<P>)
    requires InRange(c, s)
    ensures Reaches(c, k, s, s)
  {
    assert After(c, k, s, 0) == s;
  }

  lemma ReachesNext<P>(c: Config, k: nat, s: Cursor<P>, s': Cursor<P>)
    requires InRange(c, s) && InRange(c, s') && Reaches(c, k, s, s')
    ensures Reaches(c, k, s, Next(c, k, s'))
  {
    var n: nat :| After(c, k, s, n) == s';
    assert After(c, k, s, n + 1) == Next(c, k, s');
  }

  lemma {:induction false} HaltedStays<P>(c: Config, k: nat, s: Cursor<P>, n: nat, m: nat)
    requires InRange(c, s) && n <= m && Halt(c, k, After(c, k, s, n)).Some?
    ensures After(c, k, s, m) == After(c, k, s, n)
  {
    if n < m {
      HaltedStays(c, k, s, n, m - 1);
    }
  }

  /** An insertion ends in one way only. */
  lemma EndsOnce<P>(c: Config, k: nat, s: Cursor<P>, e: Cursor<P>, e': Cursor<P>, r: Outcome, r': Outcome,
                    t: Table<P>, t': Table<P>)
    requires InRange(c, s) && Ends(c, k, s, e, r, t) && Ends(c, k, s, e', r', t')
    ensures e == e' && r == r' && t == t'
  {
    hide Halt;
    var n: nat :| After(c, k, s, n) == e;
    var m: nat :| After(c, k, s, m) == e';
    if n <= m {
      HaltedStays(c, k, s, n, m);
    } else {
      HaltedStays(c, k, s, m, n);
    }
  }

  /** The slots of the path of key from p on are taken. */
  ghost predicate TakenFrom<P>(c: Config, t: Table<P>, key: nat, p: Pos)
    requires Shaped(c, t)
  {
    forall q: Pos :: q.slot < c.size && c.NoReturn(c.home(key), q.step) && !q.Before(p) ==>
      SlotAt(c, t, c.home(key), q).key != c.sentinel
  }

  /** A step writes taken slots only, and puts stored keys there. */
  lemma NextSameTaken<P>(c: Config, k: nat, s: Cursor<P>)
    requires InRange(c, s) && s.x.key != c.sentinel
    ensures SameTaken(c, s.t, Next(c, k, s).t) && Next(c, k, s).x.key != c.sentinel
  {
  }

  lemma {:induction false} AfterSameTaken<P>(c: Config, k: nat, s: Cursor<P>, n: nat)
    requires InRange(c, s) && s.x.key != c.sentinel
    ensures SameTaken(c, s.t, After(c, k, s, n).t) && After(c, k, s, n).x.key != c.sentinel
  {
    if n > 0 {
      AfterSameTaken(c, k, s, n - 1);
      NextSameTaken(c, k, After(c, k, s, n - 1));
      hide Next;
    }
  }

  /** Until an insertion ends, the set of taken slots stays as it was. */
  lemma EndsSameTaken<P>(c: Config, k: nat, s: Cursor<P>, e: Cursor<P>, r: Outcome, t: Table<P>)
    requires InRange(c, s) && s.x.key != c.sentinel && Ends(c, k, s, e, r, t)
    ensures SameTaken(c, s.t, e.t) && (r != Inserted ==> t == e.t)
  {
    var n: nat :| After(c, k, s, n) == e;
    AfterSameTaken(c, k, s, n);
  }

  lemma SameTakenPaths<P>(c: Config, t: Table<P>, t': Table<P>, key: nat, p: Pos)
    requires Shaped(c, t) && Shaped(c, t') && SameTaken(c, t, t')
    ensures PathFull(c, t, key) <==> PathFull(c, t', key)
    ensures TakenFrom(c, t, key, p) <==> TakenFrom(c, t', key, p)
  {
    forall q: Pos | q.slot < c.size
      ensures SlotAt(c, t, c.home(key), q).key != c.sentinel <==> SlotAt(c, t', c.home(key), q).key != c.sentinel
    {
      ProbeBounds(c, c.home(key), q.step);
    }
    hide SlotAt;
  }

  /** How the end of an insertion of k stands to the path of the key it carried last, in the
      table before the call. */
  ghost predicate Reports<P>(c: Config, t: Table<P>, e: Cursor<P>, r: Outcome)
    requires Shaped(c, t)
  {
    match r
    case Inserted => !PathFull(c, t, e.x.key)
    case Cycled => PathFull(c, t, e.x.key)
    case Looped => PathFull(c, t, e.x.key) <==> TakenFrom(c, t, e.x.key, Pos(e.x.step, e.i))
    case Refused => true
  }

  /** What holds of the last table holds of the first one. */
  lemma ReportsEarlier<P>(c: Config, k: nat, s: Cursor<P>, e: Cursor<P>, r: Outcome, t: Table<P>)
    requires InRange(c, s) && s.x.key != c.sentinel && Ends(c, k, s, e, r, t) && Reports(c, e.t, e, r)
    ensures Reports(c, s.t, e, r) && (r != Inserted ==> Shaped(c, t) && SameTaken(c, s.t, t))
  {
    EndsSameTaken(c, k, s, e, r, t);
    SameTakenPaths(c, s.t, e.t, e.x.key, Pos(e.x.step, e.i));
    hide PathFull;
    hide TakenFrom;
    hide SameTaken;
    hide Reaches;
    hide Halt;
  }

  /** A carried key that robs a slot is not stored. */
  lemma CarriedAbsent<P>(c: Config, t: Table<P>, at: map<nat, Pos>, before: map<nat, P>, k: nat, p: P, x: Carried<P>,
                         b: nat, i: nat, swapped: bool)
    requires Stored(c, t, at) && Carrying(c, t, at, before, k, p, x, swapped) && Walking(c, t, x, b, i, swapped)
    requires i < c.size && t[b][i].key != x.key && (t[b][i].key == c.sentinel || t[b][i].psl < x.step)
    ensures x.key !in at && (!swapped ==> k !in before)
  {
    hide Passed;
    hide Unmet;
    hide Placed;
    StoredKeys(c, t, at);
    if !swapped {
      WalkEndsAbsent(c, t, at, x.key, Pos(x.step, i));
    }
  }

  lemma StealStores<P>(c: Config, t: Table<P>, at: map<nat, Pos>, before: map<nat, P>, k: nat, p: P, x: Carried<P>,
                       b: nat, i: nat, swapped: bool)
    requires Stored(c, t, at) && Carrying(c, t, at, before, k, p, x, swapped) && Walking(c, t, x, b, i, swapped)
    requires Robs(c, t, x, k, b, i)
    ensures var t', at' := Robbed(t, x, b, i), Moved(c, t, at, b, Pos(x.step, i), x.key);
            Stored(c, t', at') && Carrying(c, t', at', before, k, p, Rich(t[b][i]), true)
  {
    hide Unmet;
    hide Passed;
    hide Placed;
    CarriedAbsent(c, t, at, before, k, p, x, b, i, swapped);
    TakeSlot(c, t, at, b, x.key, Pos(x.step, i), x.payload);
    SlotHolds(c, t, at, b, i);
    StoredKeys(c, t, at);
    hide Stored;
    hide MapOf;
    Exchange(MapOf(c, t, at), t[b][i].key, t[b][i].payload, x.key, x.payload);
  }

  lemma StealWalks<P>(c: Config, t: Table<P>, at: map<nat, Pos>, k: nat, x: Carried<P>, b: nat, i: nat)
    requires Stored(c, t, at) && Robs(c, t, x, k, b, i) && x.key != c.sentinel && x.step < c.n
    ensures Shaped(c, Robbed(t, x, b, i)) && Walking(c, Robbed(t, x, b, i), Rich(t[b][i]), b, i + 1, true)
    ensures Higher(c, t, Robbed(t, x, b, i)) && Room(c, Robbed(t, x, b, i)) < Room(c, t)
  {
    var s := Slot(x.key, x.step, x.payload);
    CarryOn(c, t, at, b, i, s);
    SwapShrinksRoom(c, t, b, i, s);
    HigherWrite(c, t, t, b, i, s);
  }

  lemma StealAhead<P>(c: Config, t: Table<P>, at: map<nat, Pos>, before: map<nat, P>, k: nat, p: P, x: Carried<P>,
                      b: nat, i: nat, swapped: bool, hole: Option<Pos>)
    requires Stored(c, t, at) && Carrying(c, t, at, before, k, p, x, swapped) && Walking(c, t, x, b, i, swapped)
    requires Robs(c, t, x, k, b, i) && Ahead(c, t, at, hole, k, b, i, swapped)
    ensures Shaped(c, Robbed(t, x, b, i))
    ensures Ahead(c, Robbed(t, x, b, i), Moved(c, t, at, b, Pos(x.step, i), x.key), hole, k, b, i + 1, true)
  {
    hide Passed;
    hide Placed;
    hide Owned;
    hide MapOf;
  }

  /** One theft: the invariants of an insertion carry over to the displaced key. */
  lemma StealStep<P>(c: Config, t: Table<P>, at: map<nat, Pos>, before: map<nat, P>, k: nat, p: P, x: Carried<P>,
                     b: nat, i: nat, swapped: bool, hole: Option<Pos>)
    requires Stored(c, t, at) && Carrying(c, t, at, before, k, p, x, swapped) && Walking(c, t, x, b, i, swapped)
    requires Robs(c, t, x, k, b, i) && Ahead(c, t, at, hole, k, b, i, swapped)
    ensures b < |t| && i < |t[b]| && Shaped(c, t) && b < c.n && i < c.size
    ensures var t', at', x' := Robbed(t, x, b, i), Moved(c, t, at, b, Pos(x.step, i), x.key), Rich(t[b][i]);
            && Shaped(c, t') && Stored(c, t', at')
            && Carrying(c, t', at', before, k, p, x', true) && Walking(c, t', x', b, i + 1, true)
            && Ahead(c, t', at', hole, k, b, i + 1, true) && Higher(c, t, t') && Room(c, t') < Room(c, t)
  {
    hide Passed;
    hide Unmet;
    hide Placed;
    hide Owned;
    ProbeBounds(c, c.home(x.key), x.step);
    StealStores(c, t, at, before, k, p, x, b, i, swapped);
    StealWalks(c, t, at, k, x, b, i);
    StealAhead(c, t, at, before, k, p, x, b, i, swapped, hole);
  }

  /** The state of an insertion before slot i of bucket b. */
  ghost predicate Going<P>(c: Config, t: Table<P>, at: map<nat, Pos>, before: map<nat, P>, k: nat, p: P, x: Carried<P>,
                           b: nat, i: nat, swapped: bool, hole: Option<Pos>)
  {
    && Stored(c, t, at) && Carrying(c, t, at, before, k, p, x, swapped) && Walking(c, t, x, b, i, swapped)
    && Ahead(c, t, at, hole, k, b, i, swapped)
  }

  lemma StartGoing<P>(c: Config, t: Table<P>, at: map<nat, Pos>, k: nat, p: P, hole: Option<Pos>)
    requires Stored(c, t, at) && k != c.sentinel
    requires hole.Some? ==> HoleAt(c, t, hole.value)
    ensures Going(c, t, at, MapOf(c, t, at), k, p, Carried(k, p, 0), c.home(k), 0, false, hole)
  {
    StartWalk(c, t, k);
  }

  lemma PassSlot<P>(c: Config, t: Table<P>, at: map<nat, Pos>, before: map<nat, P>, k: nat, p: P, x: Carried<P>,
                    b: nat, i: nat, swapped: bool, hole: Option<Pos>)
    requires Going(c, t, at, before, k, p, x, b, i, swapped, hole) && i < c.size
    requires t[b][i].key != c.sentinel && t[b][i].key != x.key && t[b][i].psl >= x.step
    ensures Going(c, t, at, before, k, p, x, b, i + 1, swapped, hole)
  {
    hide Placed;
    hide Owned;
    hide MapOf;
    PassedMore(c, t, c.home(x.key), x.step, i);
    if !swapped {
      UnmetMore(c, t, c.home(x.key), x.step, i, x.key);
    }
    hide Passed;
    hide Unmet;
  }

  /** In an empty slot the insertion ends, and the old map has gained the new key. */
  lemma FillStep<P>(c: Config, t: Table<P>, at: map<nat, Pos>, before: map<nat, P>, k: nat, p: P, x: Carried<P>,
                    b: nat, i: nat, swapped: bool, hole: Option<Pos>)
    requires Going(c, t, at, before, k, p, x, b, i, swapped, hole) && i < c.size && t[b][i].key == c.sentinel
    ensures var t', at' := Robbed(t, x, b, i), Moved(c, t, at, b, Pos(x.step, i), x.key);
            && Stored(c, t', at') && MapOf(c, t', at') == before[k := p] && k !in before
            && Higher(c, t, t') && HasHole(c, t) && !PathFull(c, t, x.key)
  {
    assert SlotAt(c, t, c.home(x.key), Pos(x.step, i)).key == c.sentinel;
    hide PathFull;
    CarriedAbsent(c, t, at, before, k, p, x, b, i, swapped);
    TakeSlot(c, t, at, b, x.key, Pos(x.step, i), x.payload);
    StoredKeys(c, t, at);
    hide Passed;
    hide Placed;
    hide Unmet;
    hide Owned;
    HigherWrite(c, t, t, b, i, Slot(x.key, x.step, x.payload));
    hide MapOf;
    assert MapOf(c, t, at) - {c.sentinel} == MapOf(c, t, at);
  }

  /** Only the new key itself can meet its own duplicate. */
  lemma DuplicateStep<P>(c: Config, t: Table<P>, at: map<nat, Pos>, before: map<nat, P>, k: nat, p: P, x: Carried<P>,
                         b: nat, i: nat, swapped: bool, hole: Option<Pos>)
    requires Going(c, t, at, before, k, p, x, b, i, swapped, hole) && i < c.size && t[b][i].key == x.key
    ensures !swapped && k in before
  {
    SlotHolds(c, t, at, b, i);
  }

  /** Meeting the new key again means that the carried key is lost, and that there was no
      hole ahead of the walk. */
  lemma LoopStep<P>(c: Config, t: Table<P>, at: map<nat, Pos>, before: map<nat, P>, k: nat, p: P, x: Carried<P>,
                    b: nat, i: nat, swapped: bool, hole: Option<Pos>)
    requires Going(c, t, at, before, k, p, x, b, i, swapped, hole) && i < c.size && t[b][i].key == k != x.key
    ensures LostOne(MapOf(c, t, at), before, k, p, x.key) && k in MapOf(c, t, at) && swapped && hole.None?
  {
    hide Passed;
    hide Unmet;
    SlotHolds(c, t, at, b, i);
    StoredKeys(c, t, at);
    hide Placed;
    hide Owned;
    hide MapOf;
  }

  /** The path of the carried key is full exactly when its slots still ahead are taken. */
  lemma GoingPathFull<P>(c: Config, t: Table<P>, at: map<nat, Pos>, before: map<nat, P>, k: nat, p: P, x: Carried<P>,
                         b: nat, i: nat, swapped: bool, hole: Option<Pos>)
    requires Going(c, t, at, before, k, p, x, b, i, swapped, hole)
    ensures Shaped(c, t) && (PathFull(c, t, x.key) <==> TakenFrom(c, t, x.key, Pos(x.step, i)))
  {
  }

  /** A bucket without room: the walk goes on to the next bucket of the path. */
  lemma BucketDone<P>(c: Config, t: Table<P>, at: map<nat, Pos>, before: map<nat, P>, k: nat, p: P, x: Carried<P>,
                      b: nat, swapped: bool, hole: Option<Pos>)
    requires Going(c, t, at, before, k, p, x, b, c.size, swapped, hole)
    requires c.Probe(c.home(x.key), x.step + 1) != c.home(x.key)
    ensures x.step + 1 < c.n
    ensures Going(c, t, at, before, k, p, x.(step := x.step + 1), c.Probe(c.home(x.key), x.step + 1), 0, swapped, hole)
  {
    hide Placed;
    hide Owned;
    hide MapOf;
    var o := c.home(x.key);
    NextBucket(c, t, o, x.step, x.key);
    ProbeBounds(c, o, x.step + 1);
    if hole.Some? {
      GapShrinks(c, t, o, x.step, hole.value.step, hole.value.slot);
    }
    hide Passed;
    hide Unmet;
  }

  /** A path that came back is full, its carried key is lost, and there was no hole. */
  lemma CycleStep<P>(c: Config, t: Table<P>, at: map<nat, Pos>, before: map<nat, P>, k: nat, p: P, x: Carried<P>,
                     b: nat, swapped: bool, hole: Option<Pos>)
    requires Going(c, t, at, before, k, p, x, b, c.size, swapped, hole)
    requires c.Probe(c.home(x.key), x.step + 1) == c.home(x.key)
    ensures LostOne(MapOf(c, t, at), before, k, p, x.key) && PathFull(c, t, x.key) && hole.None?
  {
    hide Passed;
    hide PathFull;
    hide Placed;
    hide Owned;
    hide MapOf;
    hide Unmet;
    ReturnMeansFull(c, t, x.key, x.step);
    if !c.quad {
      LinearPathFull(c, t, x.key);
    }
    if !swapped {
      ReturnEndsAbsent(c, t, at, x.key, x.step);
    }
    StoredKeys(c, t, at);
  }

  lemma HigherTransitive<P>(c: Config, t0: Table<P>, t1: Table<P>, t2: Table<P>)
    requires Shaped(c, t0) && Shaped(c, t1) && Shaped(c, t2) && Higher(c, t0, t1) && Higher(c, t1, t2)
    ensures Higher(c, t0, t2) && (HasHole(c, t1) ==> HasHole(c, t0))
  {
  }

  class RobinhoodProbing<P(0)> {
    const c: Config
    const probingfn: Prober
    var buckets: Table<P>
    ghost var at: map<nat, Pos>

    ghost predicate Valid()
      reads this
    {
      Stored(c, buckets, at) && probingfn.For(c)
    }

    ghost function Contents(): map<nat, P>
      requires Valid()
      reads this
    {
      MapOf(c, buckets, at)
    }

    constructor (config: Config, payload: P)
      requires config.Ok()
      ensures Valid() && c == config && Contents() == map[]
      ensures Shaped(c, buckets)
      ensures forall b, i :: 0 <= b < c.n && 0 <= i < c.size ==> buckets[b][i] == Slot(c.sentinel, 0, payload)
    {
      c := config;
      var f := NewProber(config);
      probingfn := f;
      buckets := seq(config.n, _ => seq(config.size, _ => Slot(config.sentinel, 0, payload)));
      at := map[];
    }

    /** Takes the slot of a richer key and carries that key on. */
    method Steal(b: nat, i: nat, x: Carried<P>, k: nat, ghost p: P, ghost before: map<nat, P>, ghost swapped: bool,
                 ghost hole: Option<Pos>)
      returns (x': Carried<P>)
      requires Valid() && Going(c, buckets, at, before, k, p, x, b, i, swapped, hole) && Robs(c, buckets, x, k, b, i)
      modifies this
      ensures Valid() && Shaped(c, buckets) && Going(c, buckets, at, before, k, p, x', b, i + 1, true, hole)
      ensures buckets == Robbed(old(buckets), x, b, i) && x' == Rich(old(buckets)[b][i])
      ensures Higher(c, old(buckets), buckets) && Room(c, buckets) < old(Room(c, buckets))
    {
      hide Stored;
      hide Shaped;
      hide Carrying;
      hide Walking;
      hide Ahead;
      hide Robs;
      hide Higher;
      hide Room;
      StealStep(c, buckets, at, before, k, p, x, b, i, swapped, hole);
      var richSlot := buckets[b][i];
      at := Moved(c, buckets, at, b, Pos(x.step, i), x.key);
      buckets := Write(buckets, b, i, Slot(x.key, x.step, x.payload));
      x' := Carried(richSlot.key, richSlot.payload, richSlot.psl);
    }

    /** Ends an insertion in an empty slot. */
    method Fill(b: nat, i: nat, x: Carried<P>, ghost k: nat, ghost p: P, ghost before: map<nat, P>, ghost swapped: bool,
                ghost hole: Option<Pos>)
      requires Valid() && Going(c, buckets, at, before, k, p, x, b, i, swapped, hole)
      requires i < c.size && b < c.n && Shaped(c, buckets) && buckets[b][i].key == c.sentinel
      modifies this
      ensures Valid() && Shaped(c, buckets) && Contents() == before[k := p] && k !in before
      ensures buckets == Robbed(old(buckets), x, b, i)
      ensures Higher(c, old(buckets), buckets) && HasHole(c, old(buckets)) && !PathFull(c, old(buckets), x.key)
    {
      hide Stored;
      hide Higher;
      hide PathFull;
      hide Going;
      FillStep(c, buckets, at, before, k, p, x, b, i, swapped, hole);
      at := Moved(c, buckets, at, b, Pos(x.step, i), x.key);
      buckets := Write(buckets, b, i, Slot(x.key, x.step, x.payload));
    }

    /** What an insertion that has ended did, given that the table held before. */
    ghost predicate Ended(r: Outcome, before: map<nat, P>, k: nat, p: P, x: Carried<P>, swapped: bool,
                          hole: Option<Pos>)
      requires Valid()
      reads this
    {
      match r
      case Inserted => k !in before && Contents() == before[k := p]
      case Refused => k in before && !swapped
      case Looped => LostOne(Contents(), before, k, p, x.key) && k in Contents() && swapped && hole.None?
      case Cycled => LostOne(Contents(), before, k, p, x.key) && hole.None?
    }

    /** Examines one slot: fills it, finds a duplicate, robs it or passes it. */
    method ScanSlot(b: nat, i: nat, x: Carried<P>, k: nat, ghost p: P, ghost before: map<nat, P>, ghost swapped: bool,
                    ghost hole: Option<Pos>, ghost start: Cursor<P>)
      returns (done: Option<Outcome>, x': Carried<P>, ghost swapped': bool)
      requires Valid() && Shaped(c, buckets) && b < c.n && i < c.size
      requires Going(c, buckets, at, before, k, p, x, b, i, swapped, hole)
      requires InRange(c, start) && Reaches(c, k, start, Cursor(buckets, x, b, i))
      modifies this
      ensures Valid() && Shaped(c, buckets) && Higher(c, old(buckets), buckets)
      ensures done.None? ==> Going(c, buckets, at, before, k, p, x', b, i + 1, swapped', hole)
      ensures done.None? ==> Reaches(c, k, start, Cursor(buckets, x', b, i + 1))
      ensures done.None? ==> Room(c, buckets) < old(Room(c, buckets)) || (buckets == old(buckets) && x' == x)
      ensures done.Some? ==> Ended(done.value, before, k, p, x', swapped', hole)
      ensures done.Some? ==> Reports(c, old(buckets), Cursor(old(buckets), x', b, i), done.value)
      ensures done.Some? ==> Ends(c, k, start, Cursor(old(buckets), x', b, i), done.value, buckets)
      ensures done == Some(Inserted) ==> HasHole(c, old(buckets))
      ensures !swapped' ==> !swapped && (done != Some(Inserted) ==> buckets == old(buckets) && at == old(at))
    {
      hide Stored;
      hide Going;
      hide Room;
      hide Higher;
      hide HasHole;
      hide LostOne;
      hide MapOf;
      hide PathFull;
      hide TakenFrom;
      hide Reaches;
      HigherSelf(c, buckets);
      ReachesNext(c, k, start, Cursor(buckets, x, b, i));
      done, x', swapped' := None, x, swapped;
      if buckets[b][i].key == c.sentinel {
        Fill(b, i, x, k, p, before, swapped, hole);
        done := Some(Inserted);
      } else if buckets[b][i].key == x.key {
        DuplicateStep(c, buckets, at, before, k, p, x, b, i, swapped, hole);
        done := Some(Refused);
      } else if buckets[b][i].psl < x.step {
        if k == buckets[b][i].key {
          LoopStep(c, buckets, at, before, k, p, x, b, i, swapped, hole);
          GoingPathFull(c, buckets, at, before, k, p, x, b, i, swapped, hole);
          done := Some(Looped);
        } else {
          x' := Steal(b, i, x, k, p, before, swapped, hole);
          swapped' := true;
        }
      } else {
        PassSlot(c, buckets, at, before, k, p, x, b, i, swapped, hole);
      }
    }

    /** Scans one bucket, robbing every richer slot on the way. */
    method ScanBucket(b: nat, x: Carried<P>, k: nat, ghost p: P, ghost before: map<nat, P>, ghost swapped: bool,
                      ghost hole: Option<Pos>, ghost start: Cursor<P>)
      returns (done: Option<Outcome>, x': Carried<P>, ghost swapped': bool, ghost end: Cursor<P>)
      requires Valid() && Shaped(c, buckets) && b < c.n && Going(c, buckets, at, before, k, p, x, b, 0, swapped, hole)
      requires InRange(c, start) && Reaches(c, k, start, Cursor(buckets, x, b, 0))
      modifies this
      ensures Valid() && Shaped(c, buckets) && Higher(c, old(buckets), buckets)
      ensures done.None? ==> Going(c, buckets, at, before, k, p, x', b, c.size, swapped', hole)
      ensures done.None? ==> Reaches(c, k, start, Cursor(buckets, x', b, c.size))
      ensures done.None? ==> Room(c, buckets) < old(Room(c, buckets)) || (buckets == old(buckets) && x' == x)
      ensures done.Some? ==> Ended(done.value, before, k, p, end.x, swapped', hole)
      ensures done.Some? ==> Shaped(c, end.t) && Reports(c, end.t, end, done.value)
      ensures done.Some? ==> Ends(c, k, start, end, done.value, buckets)
      ensures done == Some(Inserted) ==> HasHole(c, old(buckets))
      ensures !swapped' ==> !swapped && (done != Some(Inserted) ==> buckets == old(buckets) && at == old(at))
    {
      hide Stored;
      hide Shaped;
      hide Going;
      hide Room;
      hide Higher;
      hide HasHole;
      hide Ended;
      hide Ends;
      hide Reaches;
      hide Reports;
      HigherSelf(c, buckets);
      x', swapped', done, end := x, swapped, None, Cursor(buckets, x, b, 0);
      for i := 0 to c.size
        invariant Valid() && Shaped(c, buckets) && Higher(c, old(buckets), buckets)
        invariant Going(c, buckets, at, before, k, p, x', b, i, swapped', hole)
        invariant Reaches(c, k, start, Cursor(buckets, x', b, i))
        invariant Room(c, buckets) < old(Room(c, buckets)) || (buckets == old(buckets) && x' == x)
        invariant !swapped' ==> !swapped && buckets == old(buckets) && at == old(at)
      {
        ghost var t := buckets;
        done, x', swapped' := ScanSlot(b, i, x', k, p, before, swapped', hole, start);
        HigherTransitive(c, old(buckets), t, buckets);
        end := Cursor(t, x', b, i);
        if done.Some? {
          return;
        }
      }
      done := None;
    }

    /** The rest of an insertion, from the home bucket of the new key. */
    method Walk(k: nat, p: P, ghost before: map<nat, P>, ghost hole: Option<Pos>)
      returns (r: Outcome, ghost end: Cursor<P>, ghost swapped: bool)
      requires Valid() && Shaped(c, buckets)
      requires Going(c, buckets, at, before, k, p, Carried(k, p, 0), c.home(k), 0, false, hole)
      modifies this
      ensures Valid() && Shaped(c, buckets) && Higher(c, old(buckets), buckets)
      ensures Ended(r, before, k, p, end.x, swapped, hole)
      ensures Shaped(c, end.t) && Reports(c, end.t, end, r)
      ensures var start := Cursor(old(buckets), Carried(k, p, 0), c.home(k), 0);
              InRange(c, start) && Ends(c, k, start, end, r, buckets)
      ensures r == Inserted ==> HasHole(c, old(buckets))
      ensures !swapped && r != Inserted ==> buckets == old(buckets) && at == old(at)
    {
      hide Stored;
      hide Shaped;
      hide Going;
      hide Room;
      hide Higher;
      hide HasHole;
      hide MapOf;
      hide LostOne;
      hide PathFull;
      hide TakenFrom;
      hide Reaches;
      HigherSelf(c, buckets);
      var carried, slotIndex: nat := Carried(k, p, 0), c.home(k);
      swapped := false;
      GoingInRange(c, buckets, at, before, k, p, carried, slotIndex, 0, swapped, hole);
      ghost var start := Cursor(buckets, carried, slotIndex, 0);
      ReachesSelf(c, k, start);
      while true
        invariant Valid() && Shaped(c, buckets) && Higher(c, old(buckets), buckets)
        invariant carried.step < c.n && slotIndex < c.n
        invariant Going(c, buckets, at, before, k, p, carried, slotIndex, 0, swapped, hole)
        invariant Reaches(c, k, start, Cursor(buckets, carried, slotIndex, 0))
        invariant !swapped ==> buckets == old(buckets) && at == old(at)
        decreases Room(c, buckets), c.n - carried.step
      {
        var done;
        ghost var t := buckets;
        done, carried, swapped, end := ScanBucket(slotIndex, carried, k, p, before, swapped, hole, start);
        HigherTransitive(c, old(buckets), t, buckets);
        if done.Some? {
          return done.value, end, swapped;
        }
        ghost var b := slotIndex;
        end := Cursor(buckets, carried, b, c.size);
        ReachesNext(c, k, start, end);
        var origSlotIndex := c.home(carried.key);
        GoingInRange(c, buckets, at, before, k, p, carried, b, c.size, swapped, hole);
        slotIndex := probingfn.Next(c, origSlotIndex, carried.step + 1);
        if slotIndex == origSlotIndex {
          CycleStep(c, buckets, at, before, k, p, carried, b, swapped, hole);
          return Cycled, end, swapped;
        }
        BucketDone(c, buckets, at, before, k, p, carried, b, swapped, hole);
        carried := carried.(step := carried.step + 1);
        GoingInRange(c, buckets, at, before, k, p, carried, slotIndex, 0, swapped, hole);
      }
    }

    /** Inserts a new key, slot by slot as Next says. Refuses stored keys without touching the
        table. When it throws, the same slots are taken as before, and the table holds the old
        map and the new key except for one lost entry. Seen from the table before the call, the
        path of the key carried last has an empty slot when the insertion succeeds, is full
        when it throws for a cycle, and when it throws for a loop is full exactly when the
        slots still ahead on it are taken. With linear probing it throws only when the table
        had no empty slot left. */
    method Insert(k: nat, p: P) returns (r: Outcome, ghost end: Cursor<P>)
      requires Valid()
      modifies this
      ensures Valid() && Shaped(c, old(buckets)) && Shaped(c, buckets) && Higher(c, old(buckets), buckets)
      ensures r == Refused <==> k == c.sentinel || k in old(Contents())
      ensures r == Refused ==> buckets == old(buckets) && Contents() == old(Contents())
      ensures r == Inserted ==> Contents() == old(Contents())[k := p] && HasHole(c, old(buckets))
      ensures r == Looped || r == Cycled ==> LostOne(Contents(), old(Contents()), k, p, end.x.key)
      ensures r == Looped || r == Cycled ==> SameTaken(c, old(buckets), buckets)
      ensures r == Inserted ==> !PathFull(c, old(buckets), end.x.key)
      ensures r == Cycled ==> PathFull(c, old(buckets), end.x.key)
      ensures r == Looped ==> k in Contents()
      ensures r == Looped ==>
                (PathFull(c, old(buckets), end.x.key)
                 <==> TakenFrom(c, old(buckets), end.x.key, Pos(end.x.step, end.i)))
      ensures !c.quad && r != Refused ==> (r == Inserted <==> HasHole(c, old(buckets)))
      ensures var start := Cursor(old(buckets), Carried(k, p, 0), c.home(k), 0);
              InRange(c, start) && (k != c.sentinel ==> Ends(c, k, start, end, r, buckets))
    {
      hide Higher;
      hide HasHole;
      hide MapOf;
      hide PathFull;
      hide TakenFrom;
      hide SameTaken;
      hide Stored;
      hide Going;
      hide Ends;
      ghost var before := Contents();
      ghost var hole := InsertStart(c, buckets, at, k, p);
      ghost var start := Cursor(buckets, Carried(k, p, 0), c.home(k), 0);
      end := start;
      if k == c.sentinel {
        return Refused, end;
      }
      ghost var swapped;
      r, end, swapped := Walk(k, p, before, hole);
      ReportsEarlier(c, k, start, end, r, buckets);
    }

    /** The payload of a key; follows the same path as insertion, ignoring psl. */
    method Lookup(key: nat) returns (r: Option<P>)
      requires Valid()
      ensures r == if key in Contents() then Some(Contents()[key]) else None
    {
      StoredKeys(c, buckets, at);
      hide Passed;
      hide Unmet;
      hide Placed;
      hide Stored;
      hide MapOf;
      if key == c.sentinel {
        return None;
      }
      var origSlotIndex := c.home(key);
      var slotIndex, step := origSlotIndex, 0;
      StartWalk(c, buckets, key);
      while true
        invariant slotIndex == c.Probe(origSlotIndex, step) && c.NoReturn(origSlotIndex, step)
        invariant Unmet(c, buckets, origSlotIndex, Pos(step, 0), key)
        decreases c.n - step
      {
        ProbeBounds(c, origSlotIndex, step);
        for i := 0 to c.size
          invariant Unmet(c, buckets, origSlotIndex, Pos(step, i), key)
        {
          if buckets[slotIndex][i].key == key {
            SlotHolds(c, buckets, at, slotIndex, i);
            return Some(buckets[slotIndex][i].payload);
          }
          if buckets[slotIndex][i].key == c.sentinel {
            WalkEndsAbsent(c, buckets, at, key, Pos(step, i));
            return None;
          }
          UnmetMore(c, buckets, origSlotIndex, step, i, key);
        }
        slotIndex := probingfn.Next(c, origSlotIndex, step + 1);
        if slotIndex == origSlotIndex {
          ReturnEndsAbsent(c, buckets, at, key, step);
          return None;
        }
        NextBucket(c, buckets, origSlotIndex, step, key);
        step := step + 1;
      }
    }

    /** Empties every slot; psl and payload stay behind in memory. */
    method Clear()
      requires Valid()
      modifies this
      ensures Valid() && Contents() == map[]
    {
      for b := 0 to |buckets|
        invariant Shaped(c, buckets) && |buckets| == c.n
        invariant forall j, i :: 0 <= j < b && 0 <= i < c.size ==> buckets[j][i].key == c.sentinel
      {
        for i := 0 to |buckets[b]|
          invariant Shaped(c, buckets) && |buckets| == c.n
          invariant forall j, i :: 0 <= j < b && 0 <= i < c.size ==> buckets[j][i].key == c.sentinel
          invariant forall k :: 0 <= k < i ==> buckets[b][k].key == c.sentinel
        {
          buckets := buckets[b := buckets[b][i := buckets[b][i].(key := c.sentinel)]];
        }
      }
      at := map[];
    }
  }

  /** A hole of a linearly probed table, if it has one. */
  lemma FindHole<P>(c: Config, t: Table<P>) returns (hole: Option<Pos>)
    requires Shaped(c, t)
    ensures hole.Some? ==> HoleAt(c, t, hole.value)
    ensures !c.quad ==> (hole.Some? <==> HasHole(c, t))
  {
    hole := None;
    if !c.quad && HasHole(c, t) {
      var b, i :| 0 <= b < c.n && 0 <= i < c.size && t[b][i].key == c.sentinel;
      hole := Some(Pos(b, i));
    }
  }

  /** What holds before an insertion; the hole is one of a linearly probed table. */
  lemma InsertStart<P>(c: Config, t: Table<P>, at: map<nat, Pos>, k: nat, p: P) returns (hole: Option<Pos>)
    requires Stored(c, t, at)
    ensures Shaped(c, t) && Higher(c, t, t) && c.sentinel !in MapOf(c, t, at)
    ensures !c.quad ==> (hole.Some? <==> HasHole(c, t))
    ensures k != c.sentinel ==> Going(c, t, at, MapOf(c, t, at), k, p, Carried(k, p, 0), c.home(k), 0, false, hole)
  {
    StoredKeys(c, t, at);
    HigherSelf(c, t);
    hole := FindHole(c, t);
    if k != c.sentinel {
      StartGoing(c, t, at, k, p, hole);
    }
  }

  lemma GoingInRange<P>(c: Config, t: Table<P>, at: map<nat, Pos>, before: map<nat, P>, k: nat, p: P, x: Carried<P>,
                        b: nat, i: nat, swapped: bool, hole: Option<Pos>)
    requires Going(c, t, at, before, k, p, x, b, i, swapped, hole)
    ensures c.Ok() && x.step < c.n && c.home(x.key) < c.n && b < c.n
  {
    ProbeBounds(c, c.home(x.key), x.step);
  }

  lemma HigherSelf<P>(c: Config, t: Table<P>)
    requires Shaped(c, t)
    ensures Higher(c, t, t)
  {
  }
}
