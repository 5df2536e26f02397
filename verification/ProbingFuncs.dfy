/** Linear and quadratic probing functions, and the buckets they visit. */
module ProbingFuncs {
  import opened Bits
  import opened WideDivision
  import opened Reduction
  import opened Tables
  import opened Wrappers

  /** A directory of n buckets of size slots, the key that marks an empty slot, and the
      bucket in which the hash and the reduction start the search for a key. */
  datatype Config = Config(n: nat, size: nat, sentinel: nat, quad: bool, home: nat -> nat) {

    /** Directory indices are 64-bit, also while a step is squared. */
    ghost predicate Ok() {
      && n > 0 && size > 0 && n + n * n < B64
      && forall key :: home(key) < n
    }

    /** The bucket visited at a step, starting from bucket o. */
    function Probe(o: nat, step: nat): nat
      requires n > 0
    {
      (o + if quad then step * step else step) % n
    }

    /** Probing from o has not come back to o up to and including this step. */
    ghost predicate NoReturn(o: nat, step: nat)
      requires n > 0
    {
      forall s: nat :: 1 <= s <= step ==> Probe(o, s) != o
    }
  }

  /** A place on the path of a key: the probing step and the slot in that bucket. */
  datatype Pos = Pos(step: nat, slot: nat) {

    predicate Before(that: Pos) {
      step < that.step || (step == that.step && slot < that.slot)
    }
  }

  ghost predicate Shaped<S>(c: Config, t: seq<seq<S>>) {
    c.Ok() && |t| == c.n && forall b :: 0 <= b < c.n ==> |t[b]| == c.size
  }

  /** Place p on the path of key is slot i of bucket b. */
  ghost predicate Lands(c: Config, key: nat, p: Pos, b: nat, i: nat)
    requires c.n > 0
  {
    c.Probe(c.home(key), p.step) == b && p.slot == i
  }

  /** Probing starts in the home bucket, stays in the directory, and is back after n
      steps at the latest. */
  lemma ProbeBounds(c: Config, o: nat, step: nat)
    requires c.n > 0 && o < c.n
    ensures c.Probe(o, step) < c.n && c.Probe(o, 0) == o && c.Probe(o, c.n) == o
    ensures c.NoReturn(o, step) ==> step < c.n
  {
    var m := if c.quad then c.n else 1;
    assert o + m * c.n == c.n * m + o;
    DivModUnique(o + m * c.n, c.n, m, o);
    DivModUnique(o, c.n, 0, o);
  }

  /** Linear probing goes on to the next bucket, quadratic probing by 1, 3, 5, ... buckets. */
  lemma PathStep(c: Config, o: nat, step: nat)
    requires c.n > 0
    ensures !c.quad ==> c.Probe(o, step + 1) == if c.Probe(o, step) + 1 == c.n then 0 else c.Probe(o, step) + 1
    ensures c.quad ==> c.Probe(o, step + 1) == (c.Probe(o, step) + 2 * step + 1) % c.n
  {
    if c.quad {
      assert (step + 1) * (step + 1) == step * step + 2 * step + 1;
      ModAdd(o + step * step, 2 * step + 1, c.n);
    } else {
      ModSuccessor(o + step, c.n);
    }
  }

  /** Linear probing visits every bucket before it comes back. */
  lemma LinearVisits(c: Config, o: nat, b: nat) returns (step: nat)
    requires c.n > 0 && o < c.n && b < c.n && !c.quad
    ensures step < c.n && c.Probe(o, step) == b && c.NoReturn(o, c.n - 1)
  {
    step := if b >= o then b - o else b + c.n - o;
    if b >= o {
      DivModUnique(b, c.n, 0, b);
    } else {
      DivModUnique(b + c.n, c.n, 1, b);
    }
    forall s: nat | 1 <= s <= c.n - 1
      ensures c.Probe(o, s) != o
    {
      if o + s < c.n {
        DivModUnique(o + s, c.n, 0, o + s);
      } else {
        DivModUnique(o + s, c.n, 1, o + s - c.n);
      }
    }
  }

  /** The slot at a place on the path that starts in bucket o. */
  function SlotAt<S>(c: Config, t: seq<seq<S>>, o: nat, p: Pos): S
    requires Shaped(c, t) && o < c.n && p.slot < c.size
  {
    ProbeBounds(c, o, p.step);
    t[c.Probe(o, p.step)][p.slot]
  }

  lemma SlotAtWrite<S>(c: Config, t: seq<seq<S>>, b: nat, i: nat, s: S, o: nat, q: Pos)
    requires Shaped(c, t) && b < c.n && i < c.size && o < c.n && q.slot < c.size
    ensures Shaped(c, Write(t, b, i, s))
    ensures SlotAt(c, Write(t, b, i, s), o, q)
         == if c.Probe(o, q.step) == b && q.slot == i then s else SlotAt(c, t, o, q)
  {
  }

  /** LinearProbingFunc: subtracts the directory size until the index fits. */
  method LinearProbe(n: nat, index: nat, step: nat) returns (next: nat)
    requires n > 0
    ensures next == (index + step) % n
  {
    next := index + step;
    ghost var q := 0;
    while next >= n
      invariant index + step == n * q + next
    {
      assert n * (q + 1) == n * q + n;
      next := next - n;
      q := q + 1;
    }
    DivModUnique(index + step, n, q, next);
  }

  /** QuadraticProbingFunc: the fast modulo of the index plus the squared step. */
  function QuadraticProbe(fastmod: FastModulo, index: nat, step: nat): (next: nat)
    requires fastmod.Valid() && fastmod.w == 64 && index + step * step < B64
    ensures next == (index + step * step) % fastmod.n
  {
    Pow2Values();
    fastmod.IsModulo(index + step * step);
    fastmod.Apply(index + step * step)
  }

  /** The probing function object of a table. */
  datatype Prober = Linear(directorySize: nat) | Quadratic(fastmod: FastModulo) {

    ghost predicate For(c: Config) {
      && c.n > 0
      && match this
         case Linear(n) => !c.quad && n == c.n
         case Quadratic(f) => c.quad && f.Valid() && f.w == 64 && f.n == c.n
    }

    method Next(ghost c: Config, index: nat, step: nat) returns (next: nat)
      requires c.Ok() && For(c) && index < c.n && step <= c.n
      ensures next == c.Probe(index, step)
    {
      match this
      case Linear(n) => next := LinearProbe(n, index, step);
      case Quadratic(f) =>
        MulLe(step, step, c.n);
        MulLe(c.n, step, c.n);
        next := QuadraticProbe(f, index, step);
    }
  }

  method NewProber(c: Config) returns (p: Prober)
    requires c.Ok()
    ensures p.For(c)
  {
    Pow2Values();
    if c.quad {
      DivModUnique(c.n, B64, 0, c.n);
      var f, cut := NewFastModulo(64, c.n, false);
      p := Quadratic(f.value);
    } else {
      p := Linear(c.n);
    }
  }
}
