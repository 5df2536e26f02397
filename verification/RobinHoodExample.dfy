/**
 A run of the Robin Hood table with quadratic probing that throws although its carried key
 could still reach an empty slot: seven buckets of one slot, keys 0 to 5 in the home buckets
 5, 2, 1, 5, 2 and 1.
 */
module RobinHoodExample {
  import opened ProbingFuncs
  import opened RobinHood
  import opened Tables

  const EMPTY: nat := 100

  function Home(key: nat): nat {
    if key == 0 || key == 3 then 5 else if key == 1 || key == 4 then 2 else 1
  }

  const CONFIG: Config := Config(7, 1, EMPTY, true, Home)

  function One(key: nat, psl: nat): seq<Slot<bool>> {
    [Slot(key, psl, true)]
  }

  function Row(n: nat, key: nat, psl: nat): seq<Slot<bool>> {
    if key < n then One(key, psl) else One(EMPTY, 0)
  }

  /** The table that holds the keys below n. */
  function Holding(n: nat): Table<bool> {
    [One(EMPTY, 0), Row(n, 2, 0), Row(n, 1, 0), Row(n, 4, 1), One(EMPTY, 0), Row(n, 0, 0), Row(n, 3, 1)]
  }

  ghost function Start(t: Table<bool>, k: nat): Cursor<bool> {
    Cursor(t, Carried(k, true, 0), Home(k), 0)
  }

  lemma Probes()
    ensures CONFIG.Ok()
    ensures CONFIG.Probe(1, 0) == 1 && CONFIG.Probe(1, 1) == 2
    ensures CONFIG.Probe(2, 0) == 2 && CONFIG.Probe(2, 1) == 3 && CONFIG.Probe(2, 2) == 6
    ensures CONFIG.Probe(5, 0) == 5 && CONFIG.Probe(5, 1) == 6 && CONFIG.Probe(5, 2) == 2 && CONFIG.Probe(5, 3) == 0
  {
  }

  // ---------------------------------------------------------------- the keys 0 to 4

  /** Where key n finds an empty slot: keys 3 and 4 pass their home buckets. */
  ghost function Free(n: nat): Cursor<bool> {
    if n <= 2 then Start(Holding(n), n) else Cursor(Holding(n), Carried(n, true, 1), if n == 3 then 6 else 3, 0)
  }

  lemma FindsFree(n: nat)
    requires n <= 4
    ensures var start := Start(Holding(n), n);
            InRange(CONFIG, start) && Ends(CONFIG, n, start, Free(n), Inserted, Holding(n + 1))
  {
    Probes();
    var start := Start(Holding(n), n);
    ReachesSelf(CONFIG, n, start);
    hide Reaches;
    if n >= 3 {
      Passes(n);
    }
    Fills(n, Free(n).b);
  }

  lemma Fills(n: nat, b: nat)
    requires n <= 4 && b == Free(n).b
    ensures b < 7 && Robbed(Holding(n), Free(n).x, b, 0) == Holding(n + 1)
  {
    forall r | 0 <= r < 7
      ensures Robbed(Holding(n), Free(n).x, b, 0)[r] == Holding(n + 1)[r]
    {
      assert r == b ==> Holding(n)[b][0 := Slot(n, Free(n).x.step, true)] == Holding(n + 1)[b];
    }
  }

  lemma Passes(n: nat)
    requires 3 <= n <= 4
    ensures InRange(CONFIG, Start(Holding(n), n)) && Reaches(CONFIG, n, Start(Holding(n), n), Free(n))
  {
    Probes();
    var start := Start(Holding(n), n);
    ReachesSelf(CONFIG, n, start);
    hide Reaches;
    ReachesNext(CONFIG, n, start, start);
    ReachesNext(CONFIG, n, start, Cursor(Holding(n), Carried(n, true, 0), Home(n), 1));
  }

  lemma EmptyTable(t: Table<bool>)
    requires Shaped(CONFIG, t)
    requires forall b, i :: 0 <= b < CONFIG.n && 0 <= i < CONFIG.size ==> t[b][i] == Slot(CONFIG.sentinel, 0, true)
    ensures t == Holding(0)
  {
    forall b | 0 <= b < 7
      ensures t[b] == One(EMPTY, 0)
    {
    }
  }

  // ---------------------------------------------------------------- key 5

  function FirstRobbed(): Table<bool> {
    Write(Holding(5), 2, 0, Slot(5, 1, true))
  }

  function SecondRobbed(): Table<bool> {
    Write(FirstRobbed(), 6, 0, Slot(1, 2, true))
  }

  /** Key 5 passes bucket 1 and robs bucket 2 of key 1. */
  lemma FirstTheft()
    ensures var start := Start(Holding(5), 5);
            InRange(CONFIG, start) && Reaches(CONFIG, 5, start, Cursor(FirstRobbed(), Carried(1, true, 0), 2, 1))
  {
    Probes();
    var start := Start(Holding(5), 5);
    ReachesSelf(CONFIG, 5, start);
    hide Reaches;
    ReachesNext(CONFIG, 5, start, start);
    ReachesNext(CONFIG, 5, start, Cursor(Holding(5), Carried(5, true, 0), 1, 1));
    ReachesNext(CONFIG, 5, start, Cursor(Holding(5), Carried(5, true, 1), 2, 0));
  }

  /** Key 1 passes bucket 3 and robs bucket 6 of key 3. */
  lemma SecondTheft()
    ensures var start := Start(Holding(5), 5);
            InRange(CONFIG, start) && Reaches(CONFIG, 5, start, Cursor(SecondRobbed(), Carried(3, true, 1), 6, 1))
  {
    FirstTheft();
    Probes();
    hide Reaches;
    var start := Start(Holding(5), 5);
    ReachesNext(CONFIG, 5, start, Cursor(FirstRobbed(), Carried(1, true, 0), 2, 1));
    ReachesNext(CONFIG, 5, start, Cursor(FirstRobbed(), Carried(1, true, 1), 3, 0));
    ReachesNext(CONFIG, 5, start, Cursor(FirstRobbed(), Carried(1, true, 1), 3, 1));
    ReachesNext(CONFIG, 5, start, Cursor(FirstRobbed(), Carried(1, true, 2), 6, 0));
  }

  /** Key 3 meets key 5 in bucket 2 as a richer slot. */
  lemma MeetsItself()
    ensures var start, end := Start(Holding(5), 5), Cursor(SecondRobbed(), Carried(3, true, 2), 2, 0);
            InRange(CONFIG, start) && Ends(CONFIG, 5, start, end, Looped, SecondRobbed())
  {
    SecondTheft();
    Probes();
    hide Reaches;
    ReachesNext(CONFIG, 5, Start(Holding(5), 5), Cursor(SecondRobbed(), Carried(3, true, 1), 6, 1));
  }

  lemma NextIsEmpty()
    ensures Shaped(CONFIG, SecondRobbed()) && !PathFull(CONFIG, SecondRobbed(), 3)
  {
    Probes();
    assert CONFIG.NoReturn(5, 3);
    assert SlotAt(CONFIG, SecondRobbed(), 5, Pos(3, 0)).key == EMPTY;
  }

  // ---------------------------------------------------------------- the run

  /** An insertion whose end is known. */
  method Put(h: RobinhoodProbing<bool>, k: nat, ghost end: Cursor<bool>, ghost r0: Outcome, ghost t: Table<bool>)
    returns (r: Outcome)
    requires h.Valid() && h.c == CONFIG && k != EMPTY
    requires InRange(CONFIG, Start(h.buckets, k)) && Ends(CONFIG, k, Start(h.buckets, k), end, r0, t)
    modifies h
    ensures h.Valid() && r == r0 && h.buckets == t
    ensures r == Inserted ==> h.Contents() == old(h.Contents())[k := true]
    ensures r == Looped ==> LostOne(h.Contents(), old(h.Contents()), k, true, end.x.key)
  {
    hide Ends;
    hide PathFull;
    hide TakenFrom;
    ghost var end';
    ghost var start := Start(h.buckets, k);
    r, end' := h.Insert(k, true);
    EndsOnce(CONFIG, k, start, end, end', r0, r, t, h.buckets);
  }

  ghost function KeysBelow(n: nat): map<nat, bool> {
    if n == 0 then map[] else KeysBelow(n - 1)[n - 1 := true]
  }

  /** A table of the keys 0 to 4, inserted in turn. */
  method Fill() returns (h: RobinhoodProbing<bool>)
    ensures fresh(h) && h.Valid() && h.c == CONFIG && h.buckets == Holding(5) && h.Contents() == KeysBelow(5)
  {
    h := new RobinhoodProbing(CONFIG, true);
    EmptyTable(h.buckets);
    hide Ends;
    hide Holding;
    hide Free;
    for n := 0 to 5
      invariant fresh(h) && h.Valid() && h.c == CONFIG && h.buckets == Holding(n) && h.Contents() == KeysBelow(n)
    {
      FindsFree(n);
      var r := Put(h, n, Free(n), Inserted, Holding(n + 1));
    }
  }

  /** Inserting key 5 then throws for a loop and loses key 3, whose next bucket is empty. */
  method ThrowsDespiteRoom() returns (h: RobinhoodProbing<bool>, r: Outcome)
    ensures h.Valid() && h.c == CONFIG && r == Looped && LostOne(h.Contents(), KeysBelow(5), 5, true, 3)
    ensures Shaped(CONFIG, h.buckets) && !PathFull(CONFIG, h.buckets, 3)
  {
    hide Ends;
    hide PathFull;
    h := Fill();
    MeetsItself();
    NextIsEmpty();
    r := Put(h, 5, Cursor(SecondRobbed(), Carried(3, true, 2), 2, 0), Looped, SecondRobbed());
  }
}
