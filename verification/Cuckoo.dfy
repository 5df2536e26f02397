/** The bucketised cuckoo hash table: two candidate buckets per key, kicking when both
    are full, and at most one entry in flight. */
module Cuckoo {
  import opened Bits
  import opened Tables
  import opened Wrappers

  const MAX_KICK_CYCLE_LENGTH: nat := 50000

  datatype Slot<+P> = Slot(key: nat, payload: P)

  type Table<P> = seq<seq<Slot<P>>>

  /** A directory of n buckets of size slots, the key that marks an empty slot, and the two
      hash functions after reduction. */
  datatype Config = Config(n: nat, size: nat, sentinel: nat, first: nat -> nat, other: nat -> nat) {

    ghost predicate Ok() {
      && n > 0 && size > 0 && (forall key :: first(key) < n) && forall key :: other(key) < n
    }

    /** The second bucket is moved off the first one where there is another bucket. */
    function Second(key: nat): nat {
      if other(key) == first(key) then (if first(key) == n - 1 then 0 else first(key) + 1) else other(key)
    }

    lemma SecondBucket(key: nat)
      requires Ok()
      ensures Second(key) < n && (Second(key) == first(key) <==> n == 1)
      ensures Second(key) == if other(key) != first(key) then other(key) else (first(key) + 1) % n
    {
      if first(key) + 1 == n {
        DivModUnique(n, n, 1, 0);
      } else {
        DivModUnique(first(key) + 1, n, 0, first(key) + 1);
      }
    }

    ghost predicate Candidate(key: nat, b: nat) {
      b == first(key) || b == Second(key)
    }
  }

  datatype Place = Place(bucket: nat, slot: nat)

  ghost predicate Shaped<P>(c: Config, t: Table<P>) {
    c.Ok() && |t| == c.n && forall b :: 0 <= b < c.n ==> |t[b]| == c.size
  }

  /** Taken slots come first. */
  ghost predicate Packed<P>(c: Config, bucket: seq<Slot<P>>) {
    forall i, j :: 0 <= i < j < |bucket| && bucket[j].key != c.sentinel ==> bucket[i].key != c.sentinel
  }

  /** Key stands at p, in one of its two buckets. */
  ghost predicate Placed<P>(c: Config, t: Table<P>, key: nat, p: Place)
    requires Shaped(c, t)
  {
    && key != c.sentinel && p.bucket < c.n && p.slot < c.size && t[p.bucket][p.slot].key == key
    && c.Candidate(key, p.bucket)
  }

  /** Every taken slot is the one place of its key. */
  ghost predicate Owned<P>(c: Config, t: Table<P>, at: map<nat, Place>)
    requires Shaped(c, t)
  {
    forall b, i :: 0 <= b < c.n && 0 <= i < c.size && t[b][i].key != c.sentinel ==>
      t[b][i].key in at && at[t[b][i].key] == Place(b, i)
  }

  ghost predicate Stored<P>(c: Config, t: Table<P>, at: map<nat, Place>) {
    && Shaped(c, t)
    && (forall key :: key in at ==> Placed(c, t, key, at[key]))
    && Owned(c, t, at)
    && forall b :: 0 <= b < c.n ==> Packed(c, t[b])
  }

  /** The table as a map. */
  ghost function MapOf<P>(c: Config, t: Table<P>, at: map<nat, Place>): map<nat, P>
    requires Stored(c, t, at)
  {
    map key | key in at :: ValueOf(c, t, at, key)
  }

  ghost function ValueOf<P>(c: Config, t: Table<P>, at: map<nat, Place>, key: nat): P
    requires Stored(c, t, at) && key in at
  {
    assert Placed(c, t, key, at[key]);
    t[at[key].bucket][at[key].slot].payload
  }

  /** Is the key in slot 0..i of bucket b? */
  ghost predicate Within<P>(t: Table<P>, b: nat, i: nat, key: nat)
    requires b < |t| && i <= |t[b]|
  {
    exists j :: 0 <= j < i && t[b][j].key == key
  }

  /** A stored key is in one of its two buckets and nowhere else. */
  lemma InOneBucket<P>(c: Config, t: Table<P>, at: map<nat, Place>, key: nat)
    requires Stored(c, t, at) && key != c.sentinel
    ensures c.first(key) < c.n && c.Second(key) < c.n
    ensures key in at <==> Within(t, c.first(key), c.size, key) || Within(t, c.Second(key), c.size, key)
    ensures MapOf(c, t, at).Keys == at.Keys
  {
    c.SecondBucket(key);
    if key in at {
      assert Placed(c, t, key, at[key]);
    }
  }

  lemma SlotHolds<P>(c: Config, t: Table<P>, at: map<nat, Place>, b: nat, i: nat)
    requires Stored(c, t, at) && b < c.n && i < c.size && t[b][i].key != c.sentinel
    ensures t[b][i].key in at && at[t[b][i].key] == Place(b, i) && c.Candidate(t[b][i].key, b)
    ensures MapOf(c, t, at)[t[b][i].key] == t[b][i].payload
  {
    assert Placed(c, t, t[b][i].key, Place(b, i));
  }

  /** A slot that may be overwritten: a taken one, or the first empty one. */
  ghost predicate Usable<P>(c: Config, bucket: seq<Slot<P>>, i: nat) {
    i < |bucket| && forall j :: 0 <= j < i ==> bucket[j].key != c.sentinel
  }

  ghost function Moved<P>(t: Table<P>, at: map<nat, Place>, b: nat, i: nat, key: nat): map<nat, Place>
    requires b < |t| && i < |t[b]|
  {
    (at - {t[b][i].key})[key := Place(b, i)]
  }

  lemma PutPlaces<P>(c: Config, t: Table<P>, at: map<nat, Place>, b: nat, i: nat, key: nat, payload: P)
    requires Stored(c, t, at) && key != c.sentinel && b < c.n && c.Candidate(key, b) && i < c.size
    ensures var t', at' := Write(t, b, i, Slot(key, payload)), Moved(t, at, b, i, key);
            && Shaped(c, t') && (forall k :: k in at' ==> Placed(c, t', k, at'[k]))
            && forall k :: k in at' && k != key ==> t'[at'[k].bucket][at'[k].slot] == t[at[k].bucket][at[k].slot]
  {
    hide Owned;
    hide Packed;
    var t', at' := Write(t, b, i, Slot(key, payload)), Moved(t, at, b, i, key);
    forall k: nat | k in at'
      ensures Placed(c, t', k, at'[k])
      ensures k != key ==> t'[at'[k].bucket][at'[k].slot] == t[at[k].bucket][at[k].slot]
    {
      if k != key {
        assert Placed(c, t, k, at[k]);
      }
    }
  }

  lemma PutOwned<P>(c: Config, t: Table<P>, at: map<nat, Place>, b: nat, i: nat, key: nat, payload: P)
    requires Shaped(c, t) && Owned(c, t, at) && key !in at && b < c.n && i < c.size
    ensures var t' := Write(t, b, i, Slot(key, payload));
            Shaped(c, t') && Owned(c, t', Moved(t, at, b, i, key))
  {
  }

  lemma PutPacked<P>(c: Config, t: Table<P>, b: nat, i: nat, key: nat, payload: P)
    requires Shaped(c, t) && (forall j :: 0 <= j < c.n ==> Packed(c, t[j])) && b < c.n && Usable(c, t[b], i)
    requires key != c.sentinel
    ensures forall j :: 0 <= j < c.n ==> Packed(c, Write(t, b, i, Slot(key, payload))[j])
  {
    assert Packed(c, t[b]);
  }

  /** After writing a new key into a usable slot it is stored there, and every other payload but
      that of the displaced key is as it was. */
  lemma PutStores<P>(c: Config, t: Table<P>, at: map<nat, Place>, b: nat, i: nat, key: nat, payload: P)
    requires Stored(c, t, at) && key != c.sentinel && key !in at && b < c.n && c.Candidate(key, b)
    requires Usable(c, t[b], i)
    ensures var t', at' := Write(t, b, i, Slot(key, payload)), Moved(t, at, b, i, key);
            && Stored(c, t', at')
            && forall k :: k in at' ==> ValueOf(c, t', at', k) == if k == key then payload else ValueOf(c, t, at, k)
  {
    PutOwned(c, t, at, b, i, key, payload);
    hide Owned;
    PutPacked(c, t, b, i, key, payload);
    hide Packed;
    hide Usable;
    PutPlaces(c, t, at, b, i, key, payload);
    hide Placed;
  }

  /** Writing a new key into a usable slot of one of its buckets: the map loses the key that
      stood there and gains the new one. */
  lemma PutKey<P>(c: Config, t: Table<P>, at: map<nat, Place>, b: nat, i: nat, key: nat, payload: P)
    requires Stored(c, t, at) && key != c.sentinel && key !in at && b < c.n && c.Candidate(key, b)
    requires Usable(c, t[b], i)
    ensures var t', at' := Write(t, b, i, Slot(key, payload)), Moved(t, at, b, i, key);
            Stored(c, t', at') && MapOf(c, t', at') == (MapOf(c, t, at) - {t[b][i].key})[key := payload]
  {
    hide Placed;
    hide Owned;
    hide Packed;
    hide ValueOf;
    PutStores(c, t, at, b, i, key, payload);
    var t', at' := Write(t, b, i, Slot(key, payload)), Moved(t, at, b, i, key);
    hide Stored;
    OneForAnother(MapOf(c, t, at), MapOf(c, t', at'), t[b][i].key, key, payload);
  }

  /** Overwriting the payload of a stored key. */
  lemma UpdateKey<P>(c: Config, t: Table<P>, at: map<nat, Place>, b: nat, i: nat, payload: P)
    requires Stored(c, t, at) && b < c.n && i < c.size && t[b][i].key != c.sentinel
    ensures var key := t[b][i].key; var t' := Write(t, b, i, Slot(key, payload));
            Stored(c, t', at) && key in at && MapOf(c, t', at) == MapOf(c, t, at)[key := payload]
  {
    var key := t[b][i].key;
    var t' := Write(t, b, i, Slot(key, payload));
    SlotHolds(c, t, at, b, i);
    forall k: nat | k in at
      ensures Shaped(c, t') && Placed(c, t', k, at[k])
      ensures k != key ==> t'[at[k].bucket][at[k].slot] == t[at[k].bucket][at[k].slot]
    {
      assert Placed(c, t, k, at[k]);
    }
    assert Owned(c, t', at);
    assert Packed(c, t[b]) && Packed(c, t'[b]);
  }

  /** The payload of an empty slot belongs to no key. */
  lemma EmptyPayload<P>(c: Config, t: Table<P>, at: map<nat, Place>, b: nat, i: nat, payload: P)
    requires Stored(c, t, at) && b < c.n && i < c.size && t[b][i].key == c.sentinel
    ensures var t' := Write(t, b, i, Slot(c.sentinel, payload));
            Stored(c, t', at) && MapOf(c, t', at) == MapOf(c, t, at)
  {
    var t' := Write(t, b, i, Slot(c.sentinel, payload));
    forall k: nat | k in at
      ensures Shaped(c, t') && Placed(c, t', k, at[k])
      ensures t'[at[k].bucket][at[k].slot] == t[at[k].bucket][at[k].slot]
    {
      assert Placed(c, t, k, at[k]);
    }
    assert Owned(c, t', at);
    assert Packed(c, t[b]) && Packed(c, t'[b]);
  }

  /** One of the two buckets of a key has an empty slot. */
  ghost predicate HasRoom<P>(c: Config, t: Table<P>, key: nat)
    requires Shaped(c, t)
  {
    c.SecondBucket(key);
    !(Full(c, t[c.first(key)]) && Full(c, t[c.Second(key)]))
  }

  lemma PutStep<P>(c: Config, t: Table<P>, at: map<nat, Place>, b: nat, i: nat, key: nat, payload: P)
    requires Stored(c, t, at) && key != c.sentinel && key !in at && b < c.n && c.Candidate(key, b)
    requires Usable(c, t[b], i)
    ensures b < |t| && i < |t[b]|
    ensures var t', at' := Write(t, b, i, Slot(key, payload)), Moved(t, at, b, i, key); var s := t[b][i];
            Stored(c, t', at') && Kicked(MapOf(c, t, at), MapOf(c, t', at'), key, payload,
              if s.key == c.sentinel then None else Some((s.key, s.payload)))
  {
    PutKey(c, t, at, b, i, key, payload);
    SentinelAbsent(c, t, at);
    if t[b][i].key != c.sentinel {
      SlotHolds(c, t, at, b, i);
    } else {
      assert MapOf(c, t, at) - {c.sentinel} == MapOf(c, t, at);
    }
  }

  lemma SentinelAbsent<P>(c: Config, t: Table<P>, at: map<nat, Place>)
    requires Stored(c, t, at)
    ensures c.sentinel !in MapOf(c, t, at)
  {
    var placed := c.sentinel in at && Placed(c, t, c.sentinel, at[c.sentinel]);
  }

  /** The table with the entry in flight is the old map with the new entry; after a kick the
      entry in flight is not in the table. */
  ghost predicate InFlight<P>(m: map<nat, P>, before: map<nat, P>, k: nat, p: P, key: nat, payload: P, kicked: bool) {
    && m[key := payload] == before[k := p]
    && if kicked then key !in m && k !in before else key == k && m == before
  }

  /** Every kick hands on the one missing entry. */
  lemma KickKeepsFlight<P>(m: map<nat, P>, m': map<nat, P>, before: map<nat, P>, k: nat, p: P, key: nat, payload: P,
                           wasKicked: bool, kicked: Option<(nat, P)>)
    requires InFlight(m, before, k, p, key, payload, wasKicked) && key !in m && Kicked(m, m', key, payload, kicked)
    ensures kicked.None? ==> m' == before[k := p]
    ensures kicked.Some? ==> InFlight(m', before, k, p, kicked.value.0, kicked.value.1, true)
  {
    if kicked.Some? {
      Exchange(m, kicked.value.0, kicked.value.1, key, payload);
    }
  }

  lemma LostInFlight<P>(m: map<nat, P>, before: map<nat, P>, k: nat, p: P, key: nat, payload: P)
    requires InFlight(m, before, k, p, key, payload, true)
    ensures LostOne(m, before, k, p, key)
  {
    assert m == m[key := payload] - {key};
  }

  // ---------------------------------------------------------------- kicking

  datatype Policy = Balanced | Biased(threshold: nat) {

    /** Where a new entry goes while one of the buckets, with c1 and c2 entries, has room:
        the emptier one, or the first one with room. */
    ghost predicate TakesFirst(c1: nat, c2: nat, size: nat) {
      c1 < size && (Balanced? ==> c1 <= c2)
    }

    /** Whether the number drawn displaces an entry of the first bucket. */
    ghost predicate VictimInFirst(rng: nat) {
      match this
      case Balanced => rng % 2 == 1
      case Biased(threshold) => rng > threshold
    }
  }

  lemma TakenUnique<P>(c: Config, bucket: seq<Slot<P>>, a: nat, b: nat)
    requires Taken(c, bucket, a) && Taken(c, bucket, b)
    ensures a == b
  {
    var low := if a < b then a else b;
    var taken := low < |bucket| && bucket[low].key != c.sentinel;
  }

  /** Exactly the first count slots of a bucket are taken. */
  ghost predicate Taken<P>(c: Config, bucket: seq<Slot<P>>, count: nat) {
    count <= |bucket| && forall j :: 0 <= j < |bucket| ==> (bucket[j].key != c.sentinel <==> j < count)
  }

  ghost predicate Full<P>(c: Config, bucket: seq<Slot<P>>) {
    forall j :: 0 <= j < |bucket| ==> bucket[j].key != c.sentinel
  }

  /** The table with one key in and, when a slot was taken over, its victim out. */
  ghost predicate Kicked<P>(m: map<nat, P>, m': map<nat, P>, key: nat, payload: P, kicked: Option<(nat, P)>) {
    match kicked
    case None => m' == m[key := payload]
    case Some((victim, v)) => victim in m && m[victim] == v && victim != key && m' == (m - {victim})[key := payload]
  }

  /** Kicks may displace any key: the generator's outputs are arbitrary. */
  class Kicking {
    const policy: Policy
    const rand: nat -> nat
    var draws: nat

    constructor (policy: Policy, rand: nat -> nat)
      ensures this.policy == policy && this.rand == rand && draws == 0
    {
      this.policy, this.rand, draws := policy, rand, 0;
    }

    method Draw() returns (r: nat)
      modifies this
      ensures r == rand(old(draws)) && draws == old(draws) + 1
    {
      r := rand(draws);
      draws := draws + 1;
    }
  }

  class Cuckoo<P(0)> {
    const c: Config
    const kickingfn: Kicking
    var buckets: Table<P>
    ghost var at: map<nat, Place>

    ghost predicate Valid()
      reads this
    {
      Stored(c, buckets, at)
    }

    ghost function Contents(): map<nat, P>
      requires Valid()
      reads this
    {
      MapOf(c, buckets, at)
    }

    constructor (config: Config, payload: P, kicking: Kicking)
      requires config.Ok()
      ensures Valid() && c == config && kickingfn == kicking && Contents() == map[]
    {
      c, kickingfn := config, kicking;
      buckets := seq(config.n, _ => seq(config.size, _ => Slot(config.sentinel, payload)));
      at := map[];
    }

    method CountTaken(b1: nat, b2: nat) returns (c1: nat, c2: nat)
      requires Valid() && b1 < c.n && b2 < c.n
      ensures Taken(c, buckets[b1], c1) && Taken(c, buckets[b2], c2)
    {
      assert Packed(c, buckets[b1]) && Packed(c, buckets[b2]);
      c1, c2 := 0, 0;
      for i := 0 to c.size
        invariant c1 <= i && forall j :: 0 <= j < i ==> (buckets[b1][j].key != c.sentinel <==> j < c1)
        invariant c2 <= i && forall j :: 0 <= j < i ==> (buckets[b2][j].key != c.sentinel <==> j < c2)
      {
        assert c1 < i ==> buckets[b1][c1].key == c.sentinel;
        assert c2 < i ==> buckets[b2][c2].key == c.sentinel;
        c1 := c1 + if buckets[b1][i].key == c.sentinel then 0 else 1;
        c2 := c2 + if buckets[b2][i].key == c.sentinel then 0 else 1;
      }
    }

    /** Writes the key into slot i of one of its buckets; whatever stood there is kicked. */
    method Put(b: nat, i: nat, key: nat, payload: P) returns (kicked: Option<(nat, P)>)
      requires Valid() && key != c.sentinel && key !in at && b < c.n && c.Candidate(key, b) && Usable(c, buckets[b], i)
      modifies this
      ensures Valid() && Kicked(old(Contents()), Contents(), key, payload, kicked)
      ensures buckets == Write(old(buckets), b, i, Slot(key, payload))
      ensures kicked.Some? ==> old(buckets)[b][i] == Slot(kicked.value.0, kicked.value.1)
      ensures kicked.None? <==> old(buckets)[b][i].key == c.sentinel
      ensures kicked.Some? ==> kicked.value.0 != c.sentinel
      ensures key in at && at[key] == Place(b, i)
    {
      PutStep(c, buckets, at, b, i, key, payload);
      hide Stored;
      hide Kicked;
      var victim := buckets[b][i];
      at := Moved(buckets, at, b, i, key);
      buckets := Write(buckets, b, i, Slot(key, payload));
      kicked := if victim.key == c.sentinel then None else Some((victim.key, victim.payload));
    }

    /** The kicking functions: fill the first empty slot of a bucket with room, else draw a number
        and displace the entry it selects. */
    method Kick(b1: nat, b2: nat, key: nat, payload: P) returns (kicked: Option<(nat, P)>)
      requires Valid() && key != c.sentinel && key !in at && b1 == c.first(key) && b2 == c.Second(key)
      requires b1 < c.n && b2 < c.n
      modifies this, kickingfn
      ensures Valid() && Kicked(old(Contents()), Contents(), key, payload, kicked)
      ensures kicked.Some? <==> Full(c, old(buckets)[b1]) && Full(c, old(buckets)[b2])
      ensures Shaped(c, old(buckets)) && (kicked.None? <==> HasRoom(c, old(buckets), key))
      ensures kicked.Some? ==> kicked.value.0 != c.sentinel
      ensures kicked.None? ==>
                forall c1: nat, c2: nat :: Taken(c, old(buckets)[b1], c1) && Taken(c, old(buckets)[b2], c2) ==>
                  key in at
                  && at[key] == if kickingfn.policy.TakesFirst(c1, c2, c.size) then Place(b1, c1) else Place(b2, c2)
      ensures kicked.None? ==> kickingfn.draws == old(kickingfn.draws)
      ensures kicked.Some? ==>
                && kickingfn.draws == old(kickingfn.draws) + 1
                && var rng := kickingfn.rand(old(kickingfn.draws));
                   var victim := old(buckets)[if kickingfn.policy.VictimInFirst(rng) then b1 else b2][rng % c.size];
                   && kicked.value == (victim.key, victim.payload) && key in at
                   && at[key] == Place(if kickingfn.policy.VictimInFirst(rng) then b1 else b2, rng % c.size)
    {
      var c1, c2 := CountTaken(b1, b2);
      forall a1: nat, a2: nat | Taken(c, buckets[b1], a1) && Taken(c, buckets[b2], a2)
        ensures a1 == c1 && a2 == c2
      {
        TakenUnique(c, buckets[b1], a1, c1);
        TakenUnique(c, buckets[b2], a2, c2);
      }
      hide Stored;
      hide Kicked;
      match kickingfn.policy {
        case Balanced =>
          if c1 <= c2 && c1 < c.size {
            kicked := Put(b1, c1, key, payload);
            return;
          }
        case Biased(_) =>
          if c1 < c.size {
            kicked := Put(b1, c1, key, payload);
            return;
          }
      }
      if c2 < c.size {
        kicked := Put(b2, c2, key, payload);
        return;
      }
      var rng := kickingfn.Draw();
      var victimBucket := match kickingfn.policy
        case Balanced => if rng % 2 == 1 then b1 else b2
        case Biased(threshold) => if rng > threshold then b1 else b2;
      kicked := Put(victimBucket, rng % c.size, key, payload);
    }

    /** Overwrites the payload of a key that is already in one of its buckets. The key that
        marks empty slots is found in an empty slot, whose payload no key owns. */
    method Update(b1: nat, b2: nat, key: nat, payload: P) returns (found: bool)
      requires Valid() && b1 == c.first(key) && b2 == c.Second(key)
      modifies this
      ensures Valid() && Shaped(c, old(buckets))
      ensures found <==> if key == c.sentinel then HasRoom(c, old(buckets), key) else key in old(Contents())
      ensures found ==> Contents() == if key == c.sentinel then old(Contents()) else old(Contents())[key := payload]
      ensures !found ==> buckets == old(buckets) && at == old(at)
    {
      c.SecondBucket(key);
      if key != c.sentinel {
        InOneBucket(c, buckets, at, key);
      }
      for i := 0 to c.size
        invariant buckets == old(buckets) && at == old(at)
        invariant !Within(buckets, b1, i, key) && !Within(buckets, b2, i, key)
      {
        if buckets[b1][i].key == key {
          UpdateAt(b1, i, payload);
          return true;
        }
        if buckets[b2][i].key == key {
          UpdateAt(b2, i, payload);
          return true;
        }
      }
      found := false;
    }

    method UpdateAt(b: nat, i: nat, payload: P)
      requires Valid() && Shaped(c, buckets) && b < c.n && i < c.size
      modifies `buckets
      ensures Valid()
      ensures var key := old(buckets)[b][i].key;
              Contents() == if key == c.sentinel then old(Contents()) else old(Contents())[key := payload]
    {
      if buckets[b][i].key == c.sentinel {
        EmptyPayload(c, buckets, at, b, i, payload);
      } else {
        UpdateKey(c, buckets, at, b, i, payload);
      }
      buckets := Write(buckets, b, i, buckets[b][i].(payload := payload));
    }

    /** Inserts or updates a key. When the kick limit is reached the insertion throws, and
        exactly the entry in flight is missing from the table: it throws after 50001 kicks and
        succeeds after 50000 at most, and it kicks nothing exactly when the key is stored or one
        of its buckets has room. The key that marks empty slots changes nothing while one of its
        buckets has room. */
    method Insert(k: nat, p: P) returns (thrown: bool, ghost lost: nat)
      requires Valid() && Shaped(c, buckets) && (k == c.sentinel ==> HasRoom(c, buckets, k))
      modifies this, kickingfn
      ensures Valid() && Shaped(c, old(buckets))
      ensures k in old(Contents()) || HasRoom(c, old(buckets), k) ==> !thrown
      ensures kickingfn.draws == old(kickingfn.draws) <==> k in old(Contents()) || HasRoom(c, old(buckets), k)
      ensures thrown ==> kickingfn.draws == old(kickingfn.draws) + 50001
      ensures !thrown ==> kickingfn.draws <= old(kickingfn.draws) + 50000
      ensures !thrown ==> Contents() == if k == c.sentinel then old(Contents()) else old(Contents())[k := p]
      ensures thrown ==> LostOne(Contents(), old(Contents()), k, p, lost)
    {
      hide Stored;
      hide Shaped;
      hide HasRoom;
      hide Kicked;
      hide Full;
      hide InFlight;
      hide MapOf;
      hide LostOne;
      var key, payload, kickCount := k, p, 0;
      ghost var before := Contents();
      StartFlight(before, k, p);
      while true
        invariant Valid() && InFlight(Contents(), before, k, p, key, payload, kickCount > 0)
        invariant k == c.sentinel <==> key == c.sentinel
        invariant kickingfn.draws == old(kickingfn.draws) + kickCount && kickCount <= 50001
        invariant kickCount == 0 ==> key == k && buckets == old(buckets) && Contents() == before
        invariant Shaped(c, old(buckets)) && (kickCount > 0 ==> k !in before && !HasRoom(c, old(buckets), k))
        invariant k == c.sentinel ==>
                    Shaped(c, buckets) && HasRoom(c, buckets, k) && Contents() == before && kickCount == 0
        decreases MAX_KICK_CYCLE_LENGTH + 1 - kickCount
      {
        lost := key;
        if kickCount > MAX_KICK_CYCLE_LENGTH {
          LostInFlight(Contents(), before, k, p, key, payload);
          return true, lost;
        }
        var i1, i2 := c.first(key), c.Second(key);
        if key != c.sentinel {
          InOneBucket(c, buckets, at, key);
        }
        ghost var m := Contents();
        var found := Update(i1, i2, key, payload);
        if found {
          if key != c.sentinel {
            FlightLands(m, before, k, p, key, payload, kickCount > 0);
          }
          return false, lost;
        }
        var kicked := Kick(i1, i2, key, payload);
        KickKeepsFlight(m, Contents(), before, k, p, key, payload, kickCount > 0, kicked);
        if kicked.None? {
          return false, lost;
        }
        key, payload := kicked.value.0, kicked.value.1;
        kickCount := kickCount + 1;
      }
    }

    /** Looks a key up in its two buckets. The key that marks empty slots is found there
        exactly when one of the two has an empty slot. */
    method Lookup(key: nat) returns (r: Option<P>)
      requires Valid()
      ensures key != c.sentinel ==> r == if key in Contents() then Some(Contents()[key]) else None
      ensures key == c.sentinel ==> (r.None? <==> Full(c, buckets[c.first(key)]) && Full(c, buckets[c.Second(key)]))
    {
      hide Placed;
      hide Owned;
      hide Packed;
      hide MapOf;
      var i1 := c.first(key);
      c.SecondBucket(key);
      if key != c.sentinel {
        InOneBucket(c, buckets, at, key);
      }
      for i := 0 to c.size
        invariant !Within(buckets, i1, i, key)
      {
        if buckets[i1][i].key == key {
          if key != c.sentinel {
            SlotHolds(c, buckets, at, i1, i);
          }
          return Some(buckets[i1][i].payload);
        }
      }
      var i2 := c.other(key);
      if i2 == i1 {
        i2 := if i1 == |buckets| - 1 then 0 else i1 + 1;
      }
      for i := 0 to c.size
        invariant !Within(buckets, i2, i, key)
      {
        if buckets[i2][i].key == key {
          if key != c.sentinel {
            SlotHolds(c, buckets, at, i2, i);
          }
          return Some(buckets[i2][i].payload);
        }
      }
      r := None;
    }

    /** Empties every slot. */
    method Clear()
      requires Valid()
      modifies this
      ensures Valid() && Contents() == map[]
    {
      for b := 0 to |buckets|
        invariant Shaped(c, buckets) && |buckets| == c.n
        invariant forall j, i :: 0 <= j < b && 0 <= i < c.size ==> buckets[j][i].key == c.sentinel
      {
        for i := 0 to |buckets[b]|
          invariant Shaped(c, buckets) && |buckets| == c.n
          invariant forall j, i :: 0 <= j < b && 0 <= i < c.size ==> buckets[j][i].key == c.sentinel
          invariant forall k :: 0 <= k < i ==> buckets[b][k].key == c.sentinel
        {
          buckets := buckets[b := buckets[b][i := buckets[b][i].(key := c.sentinel)]];
        }
      }
      at := map[];
    }
  }

  lemma StartFlight<P>(m: map<nat, P>, k: nat, p: P)
    ensures InFlight(m, m, k, p, k, p, false)
  {
  }

  /** Only the new key itself can be found in the table: that is an update. */
  lemma FlightLands<P>(m: map<nat, P>, before: map<nat, P>, k: nat, p: P, key: nat, payload: P, kicked: bool)
    requires InFlight(m, before, k, p, key, payload, kicked) && key in m
    ensures !kicked && m[key := payload] == before[k := p]
  {
  }
}
