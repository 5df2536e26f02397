/**
 The counting semaphore as a monitor: every stretch of code under the mutex is one step,
 so all interleavings, spurious wakeups and barging threads are runs of this machine.
 */
module Semaphore {

  const UINT: nat := 0x1_0000_0000

  /** Threads inside wait: not notified yet, notified, or woken for no reason; the last two
      have still to take the mutex again. held counts the permits of each thread. */
  datatype State = State(counter: nat, max: nat, sleeping: set<nat>, notified: set<nat>, woken: set<nat>,
                         held: multiset<nat>)

  datatype Action =
    | Aquire(t: nat)
    | Wake(t: nat)
    | Resume(t: nat)
    | Release(t: nat, update: nat, chosen: set<nat>)

  function Init(max: nat, start: nat): State {
    State(start, max, {}, {}, {}, multiset{})
  }

  /** The check of release, in unsigned arithmetic. */
  predicate Throws(s: State, update: nat) {
    update > (s.max - s.counter) % UINT
  }

  function Least(a: nat, b: nat): nat {
    if a < b then a else b
  }

  /** A thread makes one call at a time. release notifies some sleepers, one per unit, as
      long as there are any; which ones is up to the condition variable. */
  ghost predicate Enabled(s: State, a: Action) {
    match a
    case Aquire(t) => t !in s.sleeping + s.notified + s.woken
    case Wake(t) => t in s.sleeping
    case Resume(t) => t in s.notified + s.woken
    case Release(t, update, chosen) =>
      && t !in s.sleeping + s.notified + s.woken && update < UINT
      && chosen <= s.sleeping && |chosen| == if Throws(s, update) then 0 else Least(update, |s.sleeping|)
  }

  /** What a thread under the mutex does in aquire: takes a permit or goes to sleep. */
  function TakeOrSleep(s: State, t: nat): State {
    if s.counter == 0 then s.(sleeping := s.sleeping + {t})
    else s.(counter := s.counter - 1, held := s.held[t := s.held[t] + 1])
  }

  function Apply(s: State, a: Action): State {
    match a
    case Aquire(t) => TakeOrSleep(s, t)
    case Wake(t) => s.(sleeping := s.sleeping - {t}, woken := s.woken + {t})
    case Resume(t) => TakeOrSleep(s.(notified := s.notified - {t}, woken := s.woken - {t}), t)
    case Release(t, update, chosen) =>
      if Throws(s, update) then s
      else
        s.(counter := (s.counter + update) % UINT,
           sleeping := s.sleeping - chosen, notified := s.notified + chosen,
           held := s.held[t := s.held[t] - Least(update, s.held[t])])
  }

  // ---------------------------------------------------------------- runs

  ghost predicate IsRun(s: State, run: seq<Action>)
    decreases |run|
  {
    run != [] ==> Enabled(s, run[0]) && IsRun(Apply(s, run[0]), run[1..])
  }

  ghost function After(s: State, run: seq<Action>): State
    decreases |run|
  {
    if run == [] then s else After(Apply(s, run[0]), run[1..])
  }

  /** Threads inside wait are in exactly one place, the counter is in range, and while a
      sleeper has not been notified there are enough notified threads on their way to use
      up the counter. */
  ghost predicate Inv(s: State) {
    && s.counter <= s.max < UINT
    && s.sleeping !! s.notified !! s.woken
    && (s.sleeping != {} ==> |s.notified| >= s.counter)
  }

  lemma Remove(s: set<nat>, t: nat)
    ensures |s - {t}| == if t in s then |s| - 1 else |s|
  {
    if t !in s {
      assert s - {t} == s;
    }
  }

  lemma AddAll(s: set<nat>, more: set<nat>)
    requires s !! more
    ensures |s + more| == |s| + |more|
  {
  }

  lemma AllChosen(s: set<nat>, chosen: set<nat>)
    requires chosen <= s && s - chosen != {}
    ensures |chosen| < |s|
  {
    var x :| x in s - chosen;
    assert |s| == |chosen| + |s - chosen| by {
      AddAll(chosen, s - chosen);
      assert chosen + (s - chosen) == s;
    }
  }

  lemma TakeKeepsInv(s: State, t: nat)
    requires s.counter <= s.max < UINT && s.sleeping !! s.notified !! s.woken
    requires t !in s.sleeping + s.notified + s.woken
    requires s.sleeping != {} ==> |s.notified| + 1 >= s.counter
    ensures Inv(TakeOrSleep(s, t))
  {
  }

  lemma ReleaseCounts(s: State, update: nat, chosen: set<nat>)
    requires Inv(s) && !Throws(s, update) && chosen <= s.sleeping && |chosen| == Least(update, |s.sleeping|)
    ensures (s.counter + update) % UINT == s.counter + update <= s.max
    ensures s.sleeping - chosen != {} ==> |s.notified + chosen| >= s.counter + update
  {
    AddAll(s.notified, chosen);
    if s.sleeping - chosen != {} {
      AllChosen(s.sleeping, chosen);
    }
  }

  lemma MoveKeepsDisjoint(a: set<nat>, b: set<nat>, c: set<nat>, move: set<nat>)
    requires a !! b !! c && move <= a
    ensures (a - move) !! (b + move) !! c
  {
  }

  lemma ReleaseKeepsInv(s: State, t: nat, update: nat, chosen: set<nat>)
    requires Inv(s) && Enabled(s, Release(t, update, chosen)) && !Throws(s, update)
    ensures Inv(Apply(s, Release(t, update, chosen)))
  {
    ReleaseCounts(s, update, chosen);
    hide Throws;
    MoveKeepsDisjoint(s.sleeping, s.notified, s.woken, chosen);
  }

  lemma ResumeKeepsInv(s: State, t: nat)
    requires Inv(s) && Enabled(s, Resume(t))
    ensures Inv(Apply(s, Resume(t)))
  {
    Remove(s.notified, t);
    TakeKeepsInv(s.(notified := s.notified - {t}, woken := s.woken - {t}), t);
  }

  lemma WakeKeepsInv(s: State, t: nat)
    requires Inv(s) && Enabled(s, Wake(t))
    ensures Inv(Apply(s, Wake(t)))
  {
  }

  /** Every step of every thread keeps the invariant. */
  lemma StepKeepsInv(s: State, a: Action)
    requires Inv(s) && Enabled(s, a)
    ensures Inv(Apply(s, a)) && Apply(s, a).max == s.max
  {
    assert Apply(s, a).max == s.max;
    match a
    case Aquire(t) =>
      TakeKeepsInv(s, t);
    case Wake(t) =>
      WakeKeepsInv(s, t);
    case Resume(t) =>
      ResumeKeepsInv(s, t);
    case Release(t, update, chosen) =>
      if !Throws(s, update) {
        hide Inv;
        hide Throws;
        hide Enabled;
        ReleaseKeepsInv(s, t, update, chosen);
      }
  }

  lemma {:induction false} RunKeepsInv(s: State, run: seq<Action>)
    requires Inv(s) && IsRun(s, run)
    ensures Inv(After(s, run)) && After(s, run).max == s.max
    decreases |run|
  {
    if run != [] {
      StepKeepsInv(s, run[0]);
      RunKeepsInv(Apply(s, run[0]), run[1..]);
    }
  }

  ghost predicate BoundedAfter(s: State, run: seq<Action>) {
    IsRun(s, run) ==> After(s, run).counter <= s.max
  }

  /** The counter stays within 0..max on every run exactly when it starts there. */
  lemma CounterBoundIff(max: nat, start: nat)
    requires max < UINT && start < UINT
    ensures start <= max <==> forall run: seq<Action> :: BoundedAfter(Init(max, start), run)
  {
    var s := Init(max, start);
    if start <= max {
      forall run: seq<Action>
        ensures BoundedAfter(s, run)
      {
        if IsRun(s, run) {
          RunKeepsInv(s, run);
        }
      }
    } else {
      assert !BoundedAfter(s, []);
    }
  }

  /** A semaphore that starts above its maximum does not even refuse: the unsigned
      difference wraps, and release raises the counter further. */
  lemma StartAboveMaxGrows()
    ensures var s := Init(1, 2); var a := Release(0, 1, {});
            Enabled(s, a) && !Throws(s, 1) && Apply(s, a).counter == 3 > s.max
    ensures var s := Init(1, 2); var a := Release(0, 0xFFFF_FFFF, {});
            Enabled(s, a) && !Throws(s, 0xFFFF_FFFF) && Apply(s, a).counter == 1
  {
  }

  // ---------------------------------------------------------------- no lost wakeup

  /** While an un-notified sleeper waits and permits are left, some notified thread can take
      one right away. */
  lemma NoLostWakeup(max: nat, start: nat, run: seq<Action>) returns (t: nat)
    requires start <= max < UINT && IsRun(Init(max, start), run)
    requires var s := After(Init(max, start), run); s.sleeping != {} && s.counter > 0
    ensures var s := After(Init(max, start), run);
            t in s.notified && Enabled(s, Resume(t)) && Apply(s, Resume(t)).counter == s.counter - 1
  {
    RunKeepsInv(Init(max, start), run);
    var s := After(Init(max, start), run);
    assert s.notified != {};
    t :| t in s.notified;
  }

  /** Once every woken thread has run, a thread still asleep means that no permit is left. */
  lemma AsleepMeansEmpty(max: nat, start: nat, run: seq<Action>)
    requires start <= max < UINT && IsRun(Init(max, start), run)
    ensures var s := After(Init(max, start), run); s.sleeping != {} && s.notified == {} ==> s.counter == 0
  {
    RunKeepsInv(Init(max, start), run);
  }

  lemma ResumeShrinks(s: State, t: nat)
    requires Inv(s) && t in s.notified + s.woken
    ensures var s' := Apply(s, Resume(t));
            && |s'.notified| + |s'.woken| + 1 == |s.notified| + |s.woken|
            && |s'.held| + s'.counter == |s.held| + s.counter
  {
    Remove(s.notified, t);
    Remove(s.woken, t);
    HeldChange(s.held, t, s.held[t] + 1);
  }

  /** However the scheduler picks the woken threads, each of them runs once; and when all have
      run, nobody sleeps or no permit is left. */
  lemma {:induction false} DrainAnyOrder(s: State, run: seq<Action>)
    requires Inv(s) && IsRun(s, run) && forall a :: a in run ==> a.Resume?
    ensures var e := After(s, run);
            && Inv(e) && |run| + |e.notified| + |e.woken| == |s.notified| + |s.woken|
            && |e.held| + e.counter == |s.held| + s.counter
            && ((forall t :: !Enabled(e, Resume(t))) ==> e.sleeping == {} || e.counter == 0)
    decreases |run|
  {
    if run == [] {
      if s.notified != {} {
        var t :| t in s.notified;
        assert Enabled(s, Resume(t));
      }
    } else {
      assert run[0] in run;
      var t := run[0].t;
      StepKeepsInv(s, Resume(t));
      ResumeShrinks(s, t);
      hide Inv;
      hide Apply;
      DrainAnyOrder(Apply(s, Resume(t)), run[1..]);
    }
  }

  /** From every state the woken threads can run on until either nobody waits or no permit is
      left. */
  lemma {:induction false} Drain(s: State) returns (run: seq<Action>)
    requires Inv(s)
    ensures IsRun(s, run) && forall a :: a in run ==> a.Resume?
    ensures After(s, run).notified == {} && After(s, run).woken == {}
    ensures After(s, run).sleeping == {} || After(s, run).counter == 0
    ensures |After(s, run).held| + After(s, run).counter == |s.held| + s.counter
    decreases |s.notified| + |s.woken|
  {
    var waiting := s.notified + s.woken;
    if waiting == {} {
      run := [];
    } else {
      var t :| t in waiting;
      StepKeepsInv(s, Resume(t));
      ResumeShrinks(s, t);
      hide Inv;
      hide Apply;
      var rest := Drain(Apply(s, Resume(t)));
      run := [Resume(t)] + rest;
      assert run[1..] == rest;
    }
  }

  // ---------------------------------------------------------------- conservation

  /** How many permits a run takes: one at every step of aquire that finds the counter positive. */
  ghost function Taken(s: State, run: seq<Action>): nat
    decreases |run|
  {
    if run == [] then 0
    else (if (run[0].Aquire? || run[0].Resume?) && s.counter > 0 then 1 else 0) + Taken(Apply(s, run[0]), run[1..])
  }

  /** How many permits it gives back: the updates of all releases that do not throw. */
  ghost function Given(s: State, run: seq<Action>): nat
    decreases |run|
  {
    if run == [] then 0
    else
      (if run[0].Release? && s.counter + run[0].update <= s.max then run[0].update else 0)
      + Given(Apply(s, run[0]), run[1..])
  }

  /** One step of aquire takes one permit for its thread, or puts it to sleep. */
  lemma TakesOne(s: State, a: Action)
    requires Inv(s) && Enabled(s, a) && (a.Aquire? || a.Resume?)
    ensures s.counter > 0 ==>
              Apply(s, a).counter == s.counter - 1 && Apply(s, a).held == s.held + multiset{a.t}
              && a.t !in Apply(s, a).sleeping
    ensures s.counter == 0 ==>
              Apply(s, a).counter == 0 && Apply(s, a).held == s.held && a.t in Apply(s, a).sleeping
  {
  }

  lemma StepLedger(s: State, a: Action)
    requires Inv(s) && Enabled(s, a)
    ensures Apply(s, a).counter
         == s.counter - (if (a.Aquire? || a.Resume?) && s.counter > 0 then 1 else 0)
            + if a.Release? && s.counter + a.update <= s.max then a.update else 0
  {
  }

  /** On every run the counter is the start value, less the permits taken, and those given. */
  lemma {:induction false} CounterLedger(s: State, run: seq<Action>)
    requires Inv(s) && IsRun(s, run)
    ensures After(s, run).counter + Taken(s, run) == s.counter + Given(s, run)
    decreases |run|
  {
    if run != [] {
      StepKeepsInv(s, run[0]);
      StepLedger(s, run[0]);
      hide Inv;
      hide Apply;
      hide Enabled;
      CounterLedger(Apply(s, run[0]), run[1..]);
    }
  }

  /** Every release on the run gives back no more than its thread holds. */
  ghost predicate Paired(s: State, run: seq<Action>)
    decreases |run|
  {
    run != [] ==>
      (run[0].Release? ==> run[0].update <= s.held[run[0].t]) && Paired(Apply(s, run[0]), run[1..])
  }

  ghost predicate NeverThrows(s: State, run: seq<Action>)
    decreases |run|
  {
    run != [] ==> (run[0].Release? ==> !Throws(s, run[0].update)) && NeverThrows(Apply(s, run[0]), run[1..])
  }

  lemma HeldChange(m: multiset<nat>, t: nat, k: nat)
    ensures |m[t := k]| == |m| - m[t] + k && m[t] <= |m|
  {
    var rest := m[t := 0];
    assert m == rest + multiset{}[t := m[t]] && m[t := k] == rest + multiset{}[t := k];
  }

  /** One paired step moves permits between the counter and the threads. */
  lemma PairedStep(s: State, a: Action, start: nat)
    requires Inv(s) && |s.held| + s.counter == start <= s.max && Enabled(s, a)
    requires a.Release? ==> a.update <= s.held[a.t]
    ensures |Apply(s, a).held| + Apply(s, a).counter == start
    ensures a.Release? ==> !Throws(s, a.update)
  {
    HeldChange(s.held, a.t, s.held[a.t] + 1);
    if a.Release? {
      HeldChange(s.held, a.t, s.held[a.t] - a.update);
    }
  }

  /** Under paired use permits held and permits left always add up to the start value, and
      no release throws. */
  lemma {:induction false} PairedUse(s: State, run: seq<Action>, start: nat)
    requires Inv(s) && |s.held| + s.counter == start <= s.max && IsRun(s, run) && Paired(s, run)
    ensures var e := After(s, run); |e.held| + e.counter == start
    ensures NeverThrows(s, run)
    decreases |run|
  {
    if run != [] {
      StepKeepsInv(s, run[0]);
      PairedStep(s, run[0], start);
      hide Apply;
      hide Inv;
      hide Enabled;
      PairedUse(Apply(s, run[0]), run[1..], start);
    }
  }

  lemma OneMore(sleepers: set<nat>, chosen: set<nat>, picked: set<nat>)
    requires chosen <= sleepers && picked <= sleepers - chosen && |picked| == Least(1, |sleepers - chosen|)
    ensures sleepers - chosen - picked == sleepers - (chosen + picked)
    ensures |chosen + picked| == Least(|chosen| + 1, |sleepers|)
  {
    AddAll(chosen, picked);
    AddAll(chosen, sleepers - chosen);
    assert chosen + (sleepers - chosen) == sleepers;
  }

  // ---------------------------------------------------------------- the monitor

  class CountingSemaphore {
    var counter: nat
    const maxValue: nat
    /** The threads inside wait, and the permits handed out. */
    var sleeping: set<nat>
    var notified: set<nat>
    var woken: set<nat>
    ghost var held: multiset<nat>

    ghost function Model(): State
      reads this
    {
      State(counter, maxValue, sleeping, notified, woken, held)
    }

    constructor (max: nat, start: nat)
      ensures Model() == Init(max, start)
    {
      maxValue, counter := max, start;
      sleeping, notified, woken, held := {}, {}, {}, multiset{};
    }

    /** Under the mutex: the rest of the wait loop, up to the next wait or the return. */
    method CheckCounter(t: nat) returns (acquired: bool)
      modifies this
      ensures Model() == TakeOrSleep(old(Model()), t) && acquired == (old(counter) > 0)
      ensures counter == old(counter) - if acquired then 1 else 0
    {
      if counter == 0 {
        sleeping := sleeping + {t};
        return false;
      }
      counter := counter - 1;
      held := held[t := held[t] + 1];
      acquired := true;
    }

    /** aquire, up to its first wait. */
    method Aquire(t: nat) returns (acquired: bool)
      requires Enabled(Model(), Action.Aquire(t))
      modifies this
      ensures Model() == Apply(old(Model()), Action.Aquire(t)) && acquired == (old(counter) > 0)
      ensures counter == old(counter) - if acquired then 1 else 0
      ensures held == if acquired then old(held) + multiset{t} else old(held)
      ensures t in sleeping <==> !acquired || t in old(sleeping)
    {
      acquired := CheckCounter(t);
    }

    /** A woken thread takes the mutex and checks the counter again. */
    method Resume(t: nat) returns (acquired: bool)
      requires Enabled(Model(), Action.Resume(t))
      modifies this
      ensures Model() == Apply(old(Model()), Action.Resume(t)) && acquired == (old(counter) > 0)
      ensures counter == old(counter) - if acquired then 1 else 0
      ensures held == if acquired then old(held) + multiset{t} else old(held)
      ensures t in sleeping <==> !acquired || t in old(sleeping)
    {
      notified, woken := notified - {t}, woken - {t};
      acquired := CheckCounter(t);
    }

    /** wait may end at any time without a notification. */
    method Wake(t: nat)
      requires Enabled(Model(), Action.Wake(t))
      modifies this
      ensures Model() == Apply(old(Model()), Action.Wake(t))
    {
      sleeping, woken := sleeping - {t}, woken + {t};
    }

    /** notify_one: wakes some sleeper, if there is one. */
    method NotifyOne() returns (ghost picked: set<nat>)
      modifies `sleeping, `notified
      ensures picked <= old(sleeping) && |picked| == Least(1, |old(sleeping)|)
      ensures sleeping == old(sleeping) - picked && notified == old(notified) + picked
    {
      picked := {};
      if sleeping != {} {
        var t :| t in sleeping;
        sleeping, notified := sleeping - {t}, notified + {t};
        picked := {t};
      }
    }

    /** The notification loop of release: notifies once per unit, as long as anyone sleeps. */
    method NotifyEach(update: nat) returns (ghost chosen: set<nat>)
      modifies `sleeping, `notified
      ensures chosen <= old(sleeping) && |chosen| == Least(update, |old(sleeping)|)
      ensures sleeping == old(sleeping) - chosen && notified == old(notified) + chosen
    {
      chosen := {};
      var i := update;
      while i > 0
        invariant chosen <= old(sleeping) && sleeping == old(sleeping) - chosen && notified == old(notified) + chosen
        invariant |chosen| == Least(update - i, |old(sleeping)|) && 0 <= i <= update
      {
        ghost var picked := NotifyOne();
        OneMore(old(sleeping), chosen, picked);
        assert notified == old(notified) + (chosen + picked);
        chosen := chosen + picked;
        i := i - 1;
      }
    }

    /** release: raises the counter and notifies once per unit. */
    method Release(t: nat, update: nat) returns (thrown: bool, ghost chosen: set<nat>)
      requires t !in sleeping + notified + woken && update < UINT && sleeping !! notified
      modifies this
      ensures Enabled(old(Model()), Action.Release(t, update, chosen))
      ensures Model() == Apply(old(Model()), Action.Release(t, update, chosen))
      ensures thrown == Throws(old(Model()), update)
      ensures old(counter) <= maxValue < UINT ==>
                && (thrown <==> old(counter) + update > maxValue)
                && counter == old(counter) + if thrown then 0 else update
      ensures notified - old(notified) <= chosen <= old(sleeping) && sleeping == old(sleeping) - chosen
      ensures |chosen| == if thrown then 0 else Least(update, |old(sleeping)|)
    {
      if update > (maxValue - counter) % UINT {
        return true, {};
      }
      counter := (counter + update) % UINT;
      held := held[t := held[t] - Least(update, held[t])];
      chosen := NotifyEach(update);
      thrown := false;
    }
  }
}
