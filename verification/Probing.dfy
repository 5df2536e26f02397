/** The open-addressing hash table with linear or quadratic probing. */
module Probing {
  import opened ProbingFuncs
  import opened Tables
  import opened Wrappers

  datatype Slot<+P> = Slot(key: nat, payload: P)

  datatype Outcome = Inserted | Refused | Thrown

  type Table<P> = seq<seq<Slot<P>>>

  /** Every slot on the path from o before p is taken, none of them by key. */
  ghost predicate Passed<P>(c: Config, t: Table<P>, o: nat, p: Pos, key: nat)
    requires Shaped(c, t) && o < c.n
  {
    forall q: Pos :: q.slot < c.size && q.Before(p) ==>
      SlotAt(c, t, o, q).key != c.sentinel && SlotAt(c, t, o, q).key != key
  }

  /** Key is stored at place p of its path, which is full up to there. */
  ghost predicate Placed<P>(c: Config, t: Table<P>, key: nat, p: Pos)
    requires Shaped(c, t)
  {
    && key != c.sentinel && p.slot < c.size && c.NoReturn(c.home(key), p.step)
    && SlotAt(c, t, c.home(key), p).key == key
    && Passed(c, t, c.home(key), p, key)
  }

  /** The table stores exactly the keys of at, each at its one place. */
  ghost predicate Stored<P>(c: Config, t: Table<P>, at: map<nat, Pos>) {
    && Shaped(c, t)
    && (forall key :: key in at ==> Placed(c, t, key, at[key]))
    && Owned(c, t, at)
  }

  /** Every taken slot is the one place of its key. */
  ghost predicate Owned<P>(c: Config, t: Table<P>, at: map<nat, Pos>)
    requires Shaped(c, t)
  {
    forall b, i :: 0 <= b < c.n && 0 <= i < c.size && t[b][i].key != c.sentinel ==>
      t[b][i].key in at && Lands(c, t[b][i].key, at[t[b][i].key], b, i)
  }

  /** Every slot that the path of a key can reach is taken. */
  ghost predicate PathFull<P>(c: Config, t: Table<P>, key: nat)
    requires Shaped(c, t)
  {
    forall q: Pos :: q.slot < c.size && c.NoReturn(c.home(key), q.step) ==>
      SlotAt(c, t, c.home(key), q).key != c.sentinel
  }

  /** A walk for a stored key that has not met it yet stands on a taken slot. */
  lemma WalkMeets<P>(c: Config, t: Table<P>, key: nat, q: Pos, p: Pos)
    requires Shaped(c, t) && Placed(c, t, key, q) && p.slot < c.size && Passed(c, t, c.home(key), p, key)
    ensures SlotAt(c, t, c.home(key), p).key != c.sentinel
  {
    assert p.Before(q) || q.Before(p) || p == q;
  }

  /** Where the walk meets an empty slot, the key is not stored anywhere. */
  lemma EmptyEndsSearch<P>(c: Config, t: Table<P>, at: map<nat, Pos>, key: nat, p: Pos)
    requires Stored(c, t, at) && p.slot < c.size && Passed(c, t, c.home(key), p, key)
    requires SlotAt(c, t, c.home(key), p).key == c.sentinel
    ensures key !in at
  {
    hide Passed;
    if key in at {
      WalkMeets(c, t, key, at[key], p);
    }
  }

  /** Where the walk comes back, the key is not stored and its path is full. */
  lemma ReturnEndsSearch<P>(c: Config, t: Table<P>, at: map<nat, Pos>, key: nat, step: nat)
    requires Stored(c, t, at) && Passed(c, t, c.home(key), Pos(step, c.size), key)
    requires !c.NoReturn(c.home(key), step + 1)
    ensures key !in at && PathFull(c, t, key)
  {
    var o := c.home(key);
    forall q: Pos | q.slot < c.size && c.NoReturn(o, q.step)
      ensures q.Before(Pos(step, c.size))
    {
    }
    var placed := key in at && Placed(c, t, key, at[key]);
    if key in at {
      assert false;
    }
  }

  lemma EmptyOnPath<P>(c: Config, t: Table<P>, key: nat, p: Pos)
    requires Shaped(c, t) && p.slot < c.size && c.NoReturn(c.home(key), p.step)
    requires SlotAt(c, t, c.home(key), p).key == c.sentinel
    ensures !PathFull(c, t, key)
  {
  }

  lemma PassedMore<P>(c: Config, t: Table<P>, o: nat, step: nat, i: nat, key: nat)
    requires Shaped(c, t) && o < c.n && i < c.size && Passed(c, t, o, Pos(step, i), key)
    requires SlotAt(c, t, o, Pos(step, i)).key != c.sentinel && SlotAt(c, t, o, Pos(step, i)).key != key
    ensures Passed(c, t, o, Pos(step, i + 1), key)
  {
    forall q: Pos | q.slot < c.size && q.Before(Pos(step, i + 1))
      ensures SlotAt(c, t, o, q).key != c.sentinel && SlotAt(c, t, o, q).key != key
    {
      assert q.Before(Pos(step, i)) || q == Pos(step, i);
    }
  }

  lemma NextBucket<P>(c: Config, t: Table<P>, o: nat, step: nat, key: nat)
    requires Shaped(c, t) && o < c.n && Passed(c, t, o, Pos(step, c.size), key)
    requires c.NoReturn(o, step) && c.Probe(o, step + 1) != o
    ensures c.NoReturn(o, step + 1) && Passed(c, t, o, Pos(step + 1, 0), key)
  {
    forall q: Pos | q.slot < c.size && q.Before(Pos(step + 1, 0))
      ensures q.Before(Pos(step, c.size))
    {
    }
  }

  /** The walk starts with nothing behind it. */
  lemma StartWalk<P>(c: Config, t: Table<P>, key: nat)
    requires Shaped(c, t)
    ensures var o := c.home(key); o < c.n && c.Probe(o, 0) == o && c.NoReturn(o, 0) && Passed(c, t, o, Pos(0, 0), key)
  {
    ProbeBounds(c, c.home(key), 0);
  }

  /** Filling an empty slot with another key leaves a placed key placed. */
  lemma StaysPlaced<P>(c: Config, t: Table<P>, b: nat, i: nat, s: Slot<P>, k: nat, p: Pos)
    requires Shaped(c, t) && b < c.n && i < c.size && Placed(c, t, k, p)
    requires t[b][i].key == c.sentinel && s.key != c.sentinel && s.key != k
    ensures Shaped(c, Write(t, b, i, s)) && Placed(c, Write(t, b, i, s), k, p)
    ensures SlotAt(c, Write(t, b, i, s), c.home(k), p) == SlotAt(c, t, c.home(k), p)
  {
    var o := c.home(k);
    SlotAtWrite(c, t, b, i, s, o, p);
    forall q: Pos | q.slot < c.size && q.Before(p)
      ensures SlotAt(c, Write(t, b, i, s), o, q).key != c.sentinel && SlotAt(c, Write(t, b, i, s), o, q).key != k
    {
      SlotAtWrite(c, t, b, i, s, o, q);
    }
  }

  /** The key just written is placed where its walk ended. */
  lemma NewlyPlaced<P>(c: Config, t: Table<P>, key: nat, p: Pos, payload: P)
    requires Shaped(c, t) && key != c.sentinel && p.slot < c.size
    requires Passed(c, t, c.home(key), p, key) && c.NoReturn(c.home(key), p.step)
    requires SlotAt(c, t, c.home(key), p).key == c.sentinel
    ensures c.Probe(c.home(key), p.step) < c.n
    ensures var t' := Write(t, c.Probe(c.home(key), p.step), p.slot, Slot(key, payload));
            Shaped(c, t') && Placed(c, t', key, p) && SlotAt(c, t', c.home(key), p) == Slot(key, payload)
  {
    var o := c.home(key);
    ProbeBounds(c, o, p.step);
    var b, s := c.Probe(o, p.step), Slot(key, payload);
    SlotAtWrite(c, t, b, p.slot, s, o, p);
    forall q: Pos | q.slot < c.size && q.Before(p)
      ensures SlotAt(c, Write(t, b, p.slot, s), o, q).key != c.sentinel
           && SlotAt(c, Write(t, b, p.slot, s), o, q).key != key
    {
      SlotAtWrite(c, t, b, p.slot, s, o, q);
    }
  }

  /** The table as a map. */
  ghost function MapOf<P>(c: Config, t: Table<P>, at: map<nat, Pos>): map<nat, P>
    requires Stored(c, t, at)
  {
    map key | key in at :: ValueOf(c, t, at, key)
  }

  ghost function ValueOf<P>(c: Config, t: Table<P>, at: map<nat, Pos>, key: nat): P
    requires Stored(c, t, at) && key in at
  {
    assert Placed(c, t, key, at[key]);
    SlotAt(c, t, c.home(key), at[key]).payload
  }

  lemma StoredKeys<P>(c: Config, t: Table<P>, at: map<nat, Pos>)
    requires Stored(c, t, at)
    ensures Shaped(c, t) && c.sentinel !in MapOf(c, t, at) && MapOf(c, t, at).Keys == at.Keys
  {
    var placed := c.sentinel in at && Placed(c, t, c.sentinel, at[c.sentinel]);
  }

  /** A taken slot holds its key's only entry. */
  lemma SlotHolds<P>(c: Config, t: Table<P>, at: map<nat, Pos>, b: nat, i: nat)
    requires Stored(c, t, at) && b < c.n && i < c.size && t[b][i].key != c.sentinel
    ensures t[b][i].key in at && MapOf(c, t, at)[t[b][i].key] == t[b][i].payload
  {
    assert Lands(c, t[b][i].key, at[t[b][i].key], b, i);
  }

  /** What holds where the walk of a key starts. */
  lemma StartStored<P>(c: Config, t: Table<P>, at: map<nat, Pos>, key: nat)
    requires Stored(c, t, at)
    ensures Shaped(c, t) && MapOf(c, t, at).Keys == at.Keys && c.Ok()
    ensures var o := c.home(key); o < c.n && c.Probe(o, 0) == o && c.NoReturn(o, 0) && Passed(c, t, o, Pos(0, 0), key)
  {
    StoredKeys(c, t, at);
    StartWalk(c, t, key);
  }

  /** Writing a new key into an empty slot leaves every other key where it is. */
  lemma PlaceKeeps<P>(c: Config, t: Table<P>, at: map<nat, Pos>, b: nat, i: nat, s: Slot<P>, k: nat)
    requires Stored(c, t, at) && b < c.n && i < c.size && k in at
    requires t[b][i].key == c.sentinel && s.key != c.sentinel && s.key !in at
    ensures Shaped(c, Write(t, b, i, s)) && Placed(c, Write(t, b, i, s), k, at[k])
    ensures SlotAt(c, Write(t, b, i, s), c.home(k), at[k]) == SlotAt(c, t, c.home(k), at[k])
  {
    hide Passed;
    hide Owned;
    StaysPlaced(c, t, b, i, s, k, at[k]);
  }

  lemma PlaceOwns<P>(c: Config, t: Table<P>, at: map<nat, Pos>, b: nat, s: Slot<P>, p: Pos)
    requires Shaped(c, t) && Owned(c, t, at) && b < c.n && p.slot < c.size
    requires s.key !in at && Lands(c, s.key, p, b, p.slot)
    ensures Shaped(c, Write(t, b, p.slot, s)) && Owned(c, Write(t, b, p.slot, s), at[s.key := p])
  {
  }

  /** After writing a new key into the empty slot where its walk ended, it is stored there and
      every other payload is as it was. */
  lemma PlaceStores<P>(c: Config, t: Table<P>, at: map<nat, Pos>, key: nat, p: Pos, payload: P)
    requires Stored(c, t, at) && key != c.sentinel && p.slot < c.size
    requires Passed(c, t, c.home(key), p, key) && c.NoReturn(c.home(key), p.step)
    requires SlotAt(c, t, c.home(key), p).key == c.sentinel
    ensures key !in at && c.Probe(c.home(key), p.step) < c.n
    ensures var t', at' := Write(t, c.Probe(c.home(key), p.step), p.slot, Slot(key, payload)), at[key := p];
            && Stored(c, t', at')
            && forall k :: k in at' ==> ValueOf(c, t', at', k) == if k == key then payload else ValueOf(c, t, at, k)
  {
    EmptyEndsSearch(c, t, at, key, p);
    NewlyPlaced(c, t, key, p, payload);
    var b, s := c.Probe(c.home(key), p.step), Slot(key, payload);
    var t' := Write(t, b, p.slot, s);
    assert SlotAt(c, t, c.home(key), p) == t[b][p.slot];
    hide Passed;
    PlaceOwns(c, t, at, b, s, p);
    hide Owned;
    forall k: nat | k in at
      ensures Placed(c, t', k, at[k]) && SlotAt(c, t', c.home(k), at[k]) == SlotAt(c, t, c.home(k), at[k])
    {
      PlaceKeeps(c, t, at, b, p.slot, s, k);
    }
    hide Placed;
    hide SlotAt;
  }

  /** Writing a new key into the empty slot where its walk ended adds it to the map. */
  lemma PlaceKey<P>(c: Config, t: Table<P>, at: map<nat, Pos>, key: nat, p: Pos, payload: P)
    requires Stored(c, t, at) && key != c.sentinel && p.slot < c.size
    requires Passed(c, t, c.home(key), p, key) && c.NoReturn(c.home(key), p.step)
    requires SlotAt(c, t, c.home(key), p).key == c.sentinel
    ensures key !in at && c.Probe(c.home(key), p.step) < c.n
    ensures var t' := Write(t, c.Probe(c.home(key), p.step), p.slot, Slot(key, payload));
            Stored(c, t', at[key := p]) && MapOf(c, t', at[key := p]) == MapOf(c, t, at)[key := payload]
  {
    hide Passed;
    hide Placed;
    hide Owned;
    hide SlotAt;
    hide ValueOf;
    PlaceStores(c, t, at, key, p, payload);
    var t' := Write(t, c.Probe(c.home(key), p.step), p.slot, Slot(key, payload));
    hide Stored;
    OneForAnother(MapOf(c, t, at), MapOf(c, t', at[key := p]), key, key, payload);
  }

  class Probing<P(0)> {
    const c: Config
    const probingfn: Prober
    var buckets: Table<P>
    ghost var at: map<nat, Pos>

    ghost predicate Valid()
      reads this
    {
      Stored(c, buckets, at) && probingfn.For(c)
    }

    ghost function Contents(): map<nat, P>
      requires Valid()
      reads this
    {
      MapOf(c, buckets, at)
    }

    constructor (config: Config, payload: P)
      requires config.Ok()
      ensures Valid() && c == config && Contents() == map[]
    {
      c := config;
      var f := NewProber(config);
      probingfn := f;
      buckets := seq(config.n, _ => seq(config.size, _ => Slot(config.sentinel, payload)));
      at := map[];
    }

    /** Writes a key into the empty slot where its walk ended. */
    method Fill(slotIndex: nat, i: nat, key: nat, payload: P, ghost step: nat)
      requires Valid() && key != c.sentinel && slotIndex < c.n && i < c.size
      requires slotIndex == c.Probe(c.home(key), step) && c.NoReturn(c.home(key), step)
      requires Passed(c, buckets, c.home(key), Pos(step, i), key) && buckets[slotIndex][i].key == c.sentinel
      modifies this
      ensures Valid() && key !in old(Contents()) && Contents() == old(Contents())[key := payload]
    {
      PlaceKey(c, buckets, at, key, Pos(step, i), payload);
      hide Passed;
      hide Placed;
      hide Stored;
      buckets := Write(buckets, slotIndex, i, Slot(key, payload));
      at := at[key := Pos(step, i)];
    }

    /** Searches one bucket on the path of a key: fills its first empty slot, refuses a
        duplicate, or finds it full. */
    method InsertInBucket(slotIndex: nat, key: nat, payload: P, ghost step: nat) returns (done: Option<Outcome>)
      requires Valid() && key != c.sentinel && slotIndex < c.n
      requires slotIndex == c.Probe(c.home(key), step) && c.NoReturn(c.home(key), step)
      requires Passed(c, buckets, c.home(key), Pos(step, 0), key)
      modifies this
      ensures Valid()
      ensures done.None? ==> Passed(c, old(buckets), c.home(key), Pos(step, c.size), key)
      ensures done == Some(Inserted) ==>
        !PathFull(c, old(buckets), key) && key !in old(Contents()) && Contents() == old(Contents())[key := payload]
      ensures done != Some(Inserted) ==> buckets == old(buckets) && at == old(at)
      ensures done.Some? ==> done.value != Thrown && (done.value == Refused ==> key in old(Contents()))
    {
      hide Passed;
      hide Placed;
      hide PathFull;
      StoredKeys(c, buckets, at);
      for i := 0 to c.size
        invariant buckets == old(buckets) && at == old(at)
        invariant Passed(c, buckets, c.home(key), Pos(step, i), key)
      {
        if buckets[slotIndex][i].key == c.sentinel {
          EmptyOnPath(c, buckets, key, Pos(step, i));
          Fill(slotIndex, i, key, payload, step);
          return Some(Inserted);
        } else if buckets[slotIndex][i].key == key {
          SlotHolds(c, buckets, at, slotIndex, i);
          return Some(Refused);
        }
        PassedMore(c, buckets, c.home(key), step, i, key);
      }
      done := None;
    }

    /** The rest of an insertion, bucket by bucket along the path of the key. */
    method Walk(key: nat, payload: P) returns (r: Outcome)
      requires Valid() && key != c.sentinel
      modifies this
      ensures Valid()
      ensures r == Refused ==> key in old(Contents())
      ensures r != Refused ==> key !in old(Contents()) && (r == Thrown <==> PathFull(c, old(buckets), key))
      ensures r == Inserted ==> Contents() == old(Contents())[key := payload]
      ensures r != Inserted ==> buckets == old(buckets) && at == old(at)
    {
      hide Passed;
      hide PathFull;
      hide Stored;
      hide MapOf;
      hide Shaped;
      StartStored(c, buckets, at, key);
      var origSlotIndex := c.home(key);
      var slotIndex, step := origSlotIndex, 0;
      while true
        invariant buckets == old(buckets) && at == old(at)
        invariant slotIndex == c.Probe(origSlotIndex, step) && c.NoReturn(origSlotIndex, step)
        invariant Passed(c, buckets, origSlotIndex, Pos(step, 0), key)
        decreases c.n - step
      {
        ProbeBounds(c, origSlotIndex, step);
        var done := InsertInBucket(slotIndex, key, payload, step);
        if done.Some? {
          return done.value;
        }
        slotIndex := probingfn.Next(c, origSlotIndex, step + 1);
        if slotIndex == origSlotIndex {
          ReturnEndsSearch(c, buckets, at, key, step);
          return Thrown;
        }
        NextBucket(c, buckets, origSlotIndex, step, key);
        step := step + 1;
      }
    }

    /** Inserts a new key. Throws, leaving the table as it was, exactly when the key is new
        and its whole path is full; the first payload of a key stays. */
    method Insert(key: nat, payload: P) returns (r: Outcome)
      requires Valid()
      modifies this
      ensures Valid()
      ensures r == if key == c.sentinel || key in old(Contents()) then Refused
                   else if PathFull(c, old(buckets), key) then Thrown
                   else Inserted
      ensures r == Inserted ==> Contents() == old(Contents())[key := payload]
      ensures r != Inserted ==> buckets == old(buckets) && Contents() == old(Contents())
    {
      hide Stored;
      hide MapOf;
      hide PathFull;
      if key == c.sentinel {
        return Refused;
      }
      r := Walk(key, payload);
    }

    /** The payload of a key; follows the same path as insertion. */
    method Lookup(key: nat) returns (r: Option<P>)
      requires Valid()
      ensures r == if key in Contents() then Some(Contents()[key]) else None
    {
      StoredKeys(c, buckets, at);
      hide Passed;
      hide Placed;
      hide Stored;
      hide MapOf;
      if key == c.sentinel {
        return None;
      }
      var origSlotIndex := c.home(key);
      var slotIndex, step := origSlotIndex, 0;
      StartWalk(c, buckets, key);
      while true
        invariant slotIndex == c.Probe(origSlotIndex, step) && c.NoReturn(origSlotIndex, step)
        invariant Passed(c, buckets, origSlotIndex, Pos(step, 0), key)
        decreases c.n - step
      {
        ProbeBounds(c, origSlotIndex, step);
        for i := 0 to c.size
          invariant Passed(c, buckets, origSlotIndex, Pos(step, i), key)
        {
          if buckets[slotIndex][i].key == key {
            SlotHolds(c, buckets, at, slotIndex, i);
            return Some(buckets[slotIndex][i].payload);
          }
          if buckets[slotIndex][i].key == c.sentinel {
            EmptyEndsSearch(c, buckets, at, key, Pos(step, i));
            return None;
          }
          PassedMore(c, buckets, origSlotIndex, step, i, key);
        }
        slotIndex := probingfn.Next(c, origSlotIndex, step + 1);
        if slotIndex == origSlotIndex {
          ReturnEndsSearch(c, buckets, at, key, step);
          return None;
        }
        NextBucket(c, buckets, origSlotIndex, step, key);
        step := step + 1;
      }
    }

    /** Empties every slot; payloads stay behind in memory. */
    method Clear()
      requires Valid()
      modifies this
      ensures Valid() && Contents() == map[]
      ensures forall b, i :: 0 <= b < c.n && 0 <= i < c.size ==> buckets[b][i].payload == old(buckets[b][i].payload)
    {
      for b := 0 to |buckets|
        invariant Shaped(c, buckets) && |buckets| == c.n
        invariant forall j, i :: 0 <= j < c.n && 0 <= i < c.size ==> buckets[j][i].payload == old(buckets[j][i].payload)
        invariant forall j, i :: 0 <= j < b && 0 <= i < c.size ==> buckets[j][i].key == c.sentinel
      {
        for i := 0 to |buckets[b]|
          invariant Shaped(c, buckets) && |buckets| == c.n
          invariant forall j, i :: 0 <= j < c.n && 0 <= i < c.size ==>
                      buckets[j][i].payload == old(buckets[j][i].payload)
          invariant forall j, i :: 0 <= j < b && 0 <= i < c.size ==> buckets[j][i].key == c.sentinel
          invariant forall k :: 0 <= k < i ==> buckets[b][k].key == c.sentinel
        {
          buckets := buckets[b := buckets[b][i := buckets[b][i].(key := c.sentinel)]];
        }
      }
      at := map[];
    }
  }

  /** With linear probing the path of a key is full only when the whole table is. */
  lemma LinearPathFull<P>(c: Config, t: Table<P>, key: nat)
    requires Shaped(c, t) && !c.quad
    ensures PathFull(c, t, key) <==> forall b, i :: 0 <= b < c.n && 0 <= i < c.size ==> t[b][i].key != c.sentinel
  {
    var o := c.home(key);
    if PathFull(c, t, key) {
      forall b, i | 0 <= b < c.n && 0 <= i < c.size
        ensures t[b][i].key != c.sentinel
      {
        var step := LinearVisits(c, o, b);
        assert SlotAt(c, t, o, Pos(step, i)) == t[b][i];
      }
    } else {
      forall q: Pos {
        ProbeBounds(c, o, q.step);
      }
    }
  }
}
