/** XXH32 and XXH64: streaming in any chunks equals hashing in one go. */
module Xxh {
  import opened Bits
  import opened Blocks

  /** The two variants differ in word size, primes, convergence and finalisation. */
  datatype Variant = Xxh32 | Xxh64 {

    const bits: nat := if Xxh32? then 32 else 64
    const wrap: nat := if Xxh32? then 0x1_0000_0000 else 0x1_0000_0000_0000_0000
    const lane: nat := if Xxh32? then 4 else 8
    const stripe: nat := if Xxh32? then 16 else 32

    const p1: nat := if Xxh32? then 0x9E3779B1 else 0x9E3779B185EBCA87
    const p2: nat := if Xxh32? then 0x85EBCA77 else 0xC2B2AE3D27D4EB4F
    const p3: nat := if Xxh32? then 0xC2B2AE3D else 0x165667B19E3779F9
    const p4: nat := if Xxh32? then 0x27D4EB2F else 0x85EBCA77C2B2AE63
    const p5: nat := if Xxh32? then 0x165667B1 else 0x27D4EB2F165667C5

    function Add(a: int, b: int): nat {
      (a + b) % wrap
    }

    function Mul(a: nat, b: nat): nat {
      (a * b) % wrap
    }

    function Rotl(x: nat, r: nat): nat
      requires r <= bits
    {
      Mul(x, Pow2(r)) + Shr(x, bits - r)
    }

    function XorShift(h: nat, r: nat): nat {
      BitXor(h, Shr(h, r))
    }

    function Round(acc: nat, input: nat): nat {
      Mul(Rotl(Add(acc, Mul(input, p2)), if Xxh32? then 13 else 31), p1)
    }

    function MergeRound(acc: nat, val: nat): nat {
      Add(Mul(BitXor(acc, Round(0, val)), p1), p4)
    }

    /** XXH32_avalanche and XXH64_avalanche. */
    function Avalanche(h: nat): nat {
      if Xxh32? then XorShift(Mul(XorShift(Mul(XorShift(h, 15), p2), 13), p3), 16)
      else XorShift(Mul(XorShift(Mul(XorShift(h, 33), p2), 29), p3), 32)
    }
  }

  /** Little-endian value of some bytes. */
  function ReadLE(s: Bytes): nat {
    if s == [] then 0 else s[0] + 256 * ReadLE(s[1..])
  }

  datatype Lanes = Lanes(v1: nat, v2: nat, v3: nat, v4: nat)

  function Reset(v: Variant, seed: nat): Lanes {
    Lanes(v.Add(seed, v.p1 + v.p2), v.Add(seed, v.p2), v.Add(seed, 0), v.Add(seed, 0 - v.p1))
  }

  /** One stripe: a round on each lane. */
  function Rounds(v: Variant, a: Lanes, s: Bytes): Lanes {
    if |s| != v.stripe then a
    else
      var l := v.lane;
      Lanes(v.Round(a.v1, ReadLE(s[..l])), v.Round(a.v2, ReadLE(s[l..2 * l])),
            v.Round(a.v3, ReadLE(s[2 * l..3 * l])), v.Round(a.v4, ReadLE(s[3 * l..])))
  }

  function Converge(v: Variant, a: Lanes): nat {
    var h := v.Add(v.Add(v.Add(v.Rotl(a.v1, 1), v.Rotl(a.v2, 7)), v.Rotl(a.v3, 12)), v.Rotl(a.v4, 18));
    if v.Xxh32? then h
    else v.MergeRound(v.MergeRound(v.MergeRound(v.MergeRound(h, a.v1), a.v2), a.v3), a.v4)
  }

  /** XXH_PROCESS8_64. */
  function Process8(v: Variant, h: nat, word: nat): nat {
    v.Add(v.Mul(v.Rotl(BitXor(h, v.Round(0, word)), 27), v.p1), v.p4)
  }

  /** XXH_PROCESS4 and XXH_PROCESS4_64. */
  function Process4(v: Variant, h: nat, word: nat): nat {
    if v.Xxh32? then v.Mul(v.Rotl(v.Add(h, v.Mul(word, v.p3)), 17), v.p4)
    else v.Add(v.Mul(v.Rotl(BitXor(h, v.Mul(word, v.p1)), 23), v.p2), v.p3)
  }

  /** XXH_PROCESS1 and XXH_PROCESS1_64. */
  function Process1(v: Variant, h: nat, b: nat): nat {
    v.Mul(v.Rotl(if v.Xxh32? then v.Add(h, v.Mul(b, v.p5)) else BitXor(h, v.Mul(b, v.p5)), 11), v.p1)
  }

  /** The last bytes, which do not fill a stripe: the longest words first, then single bytes. */
  function Finalize(v: Variant, h: nat, tail: Bytes): nat
    decreases |tail|
  {
    if v.Xxh64? && |tail| >= 8 then Finalize(v, Process8(v, h, ReadLE(tail[..8])), tail[8..])
    else if |tail| >= 4 then Finalize(v, Process4(v, h, ReadLE(tail[..4])), tail[4..])
    else if |tail| > 0 then Finalize(v, Process1(v, h, tail[0]), tail[1..])
    else v.Avalanche(h)
  }

  function Stepper(v: Variant): (Lanes, Bytes, nat) -> Lanes {
    (a, s, i) => Rounds(v, a, s)
  }

  /** The lanes after the first k stripes. */
  ghost function LanesAfter(v: Variant, seed: nat, data: Bytes, k: nat): Lanes
    requires v.stripe * k <= |data|
  {
    Fold(Stepper(v), Reset(v, seed), data, v.stripe, k)
  }

  /** The hash of a whole message: lanes over all full stripes, then length and tail. */
  ghost function Hash(v: Variant, seed: nat, data: Bytes): nat {
    var k := |data| / v.stripe;
    var h := if |data| >= v.stripe then Converge(v, LanesAfter(v, seed, data, k)) else v.Add(seed, v.p5);
    Finalize(v, v.Add(h, |data|), data[v.stripe * k..])
  }

  lemma StripeStep(v: Variant, seed: nat, data: Bytes, k: nat, pos: nat)
    requires pos == v.stripe * k && pos + v.stripe <= |data|
    ensures v.stripe * (k + 1) == pos + v.stripe
    ensures LanesAfter(v, seed, data, k + 1) == Rounds(v, LanesAfter(v, seed, data, k), data[pos..pos + v.stripe])
  {
    FoldStep(Stepper(v), Reset(v, seed), data, v.stripe, k, pos);
  }

  lemma LanesPrefix(v: Variant, seed: nat, data: Bytes, more: Bytes, k: nat)
    requires v.stripe * k <= |data|
    ensures LanesAfter(v, seed, data + more, k) == LanesAfter(v, seed, data, k)
  {
    FoldPrefix(Stepper(v), Reset(v, seed), data, more, v.stripe, k);
  }

  /** XXH32_endian_align and XXH64_endian_align. */
  method OneShot(v: Variant, seed: nat, input: Bytes) returns (h: nat)
    ensures h == Hash(v, seed, input)
  {
    hide Finalize;
    hide Rounds;
    hide Converge;
    var p := 0;
    ghost var k := 0;
    if |input| >= v.stripe {
      var lanes := Reset(v, seed);
      while p + v.stripe <= |input|
        invariant p == v.stripe * k && p <= |input| && lanes == LanesAfter(v, seed, input, k)
      {
        StripeStep(v, seed, input, k, p);
        lanes := Rounds(v, lanes, input[p..p + v.stripe]);
        p := p + v.stripe;
        k := k + 1;
      }
      h := Converge(v, lanes);
    } else {
      h := v.Add(seed, v.p5);
    }
    Cut(|input|, v.stripe, k, |input| - p);
    h := Finalize(v, v.Add(h, |input|), input[p..]);
  }

  /** Lengths that the wrapped total length of XXH64 tells right from short ones. */
  ghost predicate LengthOk(v: Variant, len: nat) {
    v.Xxh64? ==> len < v.stripe || len % v.wrap >= v.stripe
  }

  /** What a state gives that takes a long message for a short one: the third lane stands
      for the seed. */
  ghost function MistakenHash(v: Variant, seed: nat, data: Bytes): nat {
    var k := |data| / v.stripe;
    Finalize(v, v.Add(v.Add(LanesAfter(v, seed, data, k).v3, v.p5), |data|), data[v.stripe * k..])
  }

  /** A streaming state after data: the lanes cover all full stripes, the rest is buffered. */
  ghost predicate Consistent(v: Variant, seed: nat, lanes: Lanes, totalLen: nat, largeLen: bool, mem: Bytes,
                             memsize: nat, data: Bytes)
  {
    && memsize == |data| % v.stripe && Buffered(mem, memsize, data)
    && lanes == LanesAfter(v, seed, data, |data| / v.stripe)
    && totalLen == |data| % v.wrap
    && (v.Xxh32? ==> (largeLen <==> |data| >= v.stripe))
  }

  lemma ConsistentAt(v: Variant, seed: nat, lanes: Lanes, totalLen: nat, largeLen: bool, mem: Bytes, memsize: nat,
                     data: Bytes, k: nat)
    requires |data| == v.stripe * k + memsize && memsize < v.stripe && Buffered(mem, memsize, data)
    requires lanes == LanesAfter(v, seed, data, k) && totalLen == |data| % v.wrap
    requires v.Xxh32? ==> (largeLen <==> |data| >= 16)
    ensures Consistent(v, seed, lanes, totalLen, largeLen, mem, memsize, data)
  {
    Cut(|data|, v.stripe, k, memsize);
  }

  lemma ConsistentParts(v: Variant, seed: nat, lanes: Lanes, totalLen: nat, largeLen: bool, mem: Bytes, memsize: nat,
                        data: Bytes, input: Bytes)
    requires Consistent(v, seed, lanes, totalLen, largeLen, mem, memsize, data)
    ensures var k := |data| / v.stripe;
            && |data| == v.stripe * k + memsize && memsize < v.stripe && Buffered(mem, memsize, data)
            && lanes == LanesAfter(v, seed, data + input, k) && totalLen == |data| % v.wrap
            && (v.Xxh32? ==> (largeLen <==> |data| >= 16))
  {
    LanesPrefix(v, seed, data, input, |data| / v.stripe);
  }

  class XxhState {
    const v: Variant
    const seed: nat
    var lanes: Lanes
    var totalLen: nat
    var largeLen: bool
    const mem: array<Byte>
    var memsize: nat

    /** Everything added since the reset. */
    ghost var data: Bytes

    ghost predicate Valid()
      reads this, mem
    {
      mem.Length == v.stripe && Consistent(v, seed, lanes, totalLen, largeLen, mem[..], memsize, data)
    }

    constructor (v: Variant, seed: nat)
      ensures Valid() && this.v == v && this.seed == seed && data == [] && fresh(mem)
    {
      this.v, this.seed := v, seed;
      lanes, totalLen, largeLen, memsize, data := Reset(v, seed), 0, false, 0, [];
      mem := new Byte[v.stripe];
    }

    /** Adds more of the message, in any chunk size. */
    method Update(input: Bytes)
      requires Valid()
      modifies this, mem
      ensures Valid() && data == old(data) + input
    {
      hide LanesAfter;
      ghost var all, k := data + input, |data| / v.stripe;
      ConsistentParts(v, seed, lanes, totalLen, largeLen, mem[..], memsize, data, input);
      hide Consistent;
      hide Buffered;
      AddLength(|input|);
      if memsize + |input| < v.stripe {
        ghost var before := mem[..];
        Copy(mem, memsize, input);
        Appended(before, memsize, data, input);
        memsize := memsize + |input|;
      } else {
        k := Consume(input, k);
      }
      data := all;
      ConsistentAt(v, seed, lanes, totalLen, largeLen, mem[..], memsize, data, k);
    }

    /** Mixes in every stripe that the buffer and the input make up, and buffers the rest. */
    method Consume(input: Bytes, ghost k0: nat) returns (ghost k: nat)
      requires mem.Length == v.stripe && |data| == v.stripe * k0 + memsize && Buffered(mem[..], memsize, data)
      requires memsize < v.stripe <= memsize + |input| && lanes == LanesAfter(v, seed, data + input, k0)
      modifies `lanes, `memsize, mem
      ensures memsize < v.stripe && |data + input| == v.stripe * k + memsize && Buffered(mem[..], memsize, data + input)
      ensures lanes == LanesAfter(v, seed, data + input, k)
    {
      hide LanesAfter;
      var p := 0;
      k := k0;
      if memsize > 0 {
        p := CompleteStripe(input, k);
        k := k + 1;
      }
      p, k := WholeStripes(input, p, k);
      if p < |input| {
        Copy(mem, 0, input[p..]);
        memsize := |input| - p;
      }
      Stashed(mem[..], memsize, data, input, p);
    }

    /** Adds to the total length, which wraps, and to the sticky flag. */
    method AddLength(len: nat)
      requires totalLen == |data| % v.wrap && (v.Xxh32? ==> (largeLen <==> |data| >= 16))
      modifies `totalLen, `largeLen
      ensures totalLen == (|data| + len) % v.wrap && (v.Xxh32? ==> (largeLen <==> |data| + len >= 16))
    {
      StateLength(v, |data|, len, |data| / v.stripe, largeLen);
      totalLen := (totalLen + len) % v.wrap;
      if v.Xxh32? {
        largeLen := largeLen || len >= 16 || totalLen >= 16;
      }
    }

    /** Fills the buffer up from the input and mixes it in. */
    method CompleteStripe(input: Bytes, ghost k: nat) returns (p: nat)
      requires mem.Length == v.stripe && |data| == v.stripe * k + memsize && Buffered(mem[..], memsize, data)
      requires 0 < memsize < v.stripe <= memsize + |input| && lanes == LanesAfter(v, seed, data + input, k)
      modifies `lanes, `memsize, mem
      ensures p <= |input| && memsize == 0 && |data| + p == v.stripe * (k + 1)
      ensures lanes == LanesAfter(v, seed, data + input, k + 1)
    {
      hide Rounds;
      hide Reset;
      ghost var all, pos := data + input, |data| - memsize;
      p := v.stripe - memsize;
      Completed(mem[..], memsize, data, input, p);
      Copy(mem, memsize, input[..p]);
      StripeStep(v, seed, all, k, pos);
      lanes := Rounds(v, lanes, mem[..]);
      memsize := 0;
    }

    /** Mixes in the stripes that lie wholly in the input. */
    method WholeStripes(input: Bytes, start: nat, ghost k: nat) returns (p: nat, ghost k': nat)
      requires start <= |input| && |data| + start == v.stripe * k && lanes == LanesAfter(v, seed, data + input, k)
      modifies `lanes
      ensures start <= p <= |input| && |data| + p == v.stripe * k' && |input| - p < v.stripe
      ensures lanes == LanesAfter(v, seed, data + input, k')
    {
      hide Rounds;
      hide Reset;
      ghost var all := data + input;
      p, k' := start, k;
      while p + v.stripe <= |input|
        invariant start <= p <= |input| && |data| + p == v.stripe * k' && lanes == LanesAfter(v, seed, all, k')
      {
        assert all[|data| + p..|data| + p + v.stripe] == input[p..p + v.stripe];
        StripeStep(v, seed, all, k', |data| + p);
        lanes := Rounds(v, lanes, input[p..p + v.stripe]);
        p := p + v.stripe;
        k' := k' + 1;
      }
    }

    /** The hash of everything added so far, unless the total length of XXH64 has wrapped to
        that of a short message; the state can go on. */
    method Digest() returns (h: nat)
      requires Valid()
      ensures h == if LengthOk(v, |data|) then Hash(v, seed, data) else MistakenHash(v, seed, data)
    {
      hide Rounds;
      hide Finalize;
      hide Converge;
      hide LanesAfter;
      StateLength(v, |data|, 0, |data| / v.stripe, largeLen);
      DigestParts(v, seed, data);
      if (v.Xxh32? && largeLen) || (v.Xxh64? && totalLen >= 32) {
        h := Converge(v, lanes);
      } else {
        h := v.Add(lanes.v3, v.p5);
      }
      assert v.Add(h, totalLen) == v.Add(h, |data|) by {
        AddWraps(v, h, |data|);
      }
      h := Finalize(v, v.Add(h, totalLen), mem[..memsize]);
    }
  }

  /** Before the first stripe the third lane still holds the seed. */
  lemma DigestParts(v: Variant, seed: nat, data: Bytes)
    ensures |data| == v.stripe * (|data| / v.stripe) + |data| % v.stripe
    ensures |data| < v.stripe ==> |data| / v.stripe == 0
    ensures v.Add(LanesAfter(v, seed, data, 0).v3, v.p5) == v.Add(seed, v.p5)
  {
    AddWraps(v, v.p5, seed);
    if |data| < v.stripe {
      DivModUnique(|data|, v.stripe, 0, |data|);
    }
  }

  lemma AddWraps(v: Variant, h: nat, len: nat)
    ensures v.Add(h, len % v.wrap) == v.Add(h, len) && v.Add(len % v.wrap, h) == v.Add(len, h)
  {
    ModAdd(len, h, v.wrap);
  }

  /** The total length wraps, but the sticky flag of XXH32 still tells short messages from
      long ones, and so does the total of XXH64 exactly for the lengths of LengthOk. */
  lemma StateLength(v: Variant, len: nat, more: nat, k: nat, large: bool)
    requires k == len / v.stripe && (v.Xxh32? ==> (large <==> len >= 16))
    ensures len == v.stripe * k + len % v.stripe
    ensures var t := (len % v.wrap + more) % v.wrap;
            && t == (len + more) % v.wrap
            && (v.Xxh32? ==> (large || more >= 16 || t >= 16 <==> len + more >= 16))
            && (v.Xxh64? ==> (LengthOk(v, len) <==> (len % v.wrap >= v.stripe <==> len >= v.stripe)))
  {
    ModAdd(len, more, v.wrap);
    if len + more < v.wrap {
      DivModUnique(len + more, v.wrap, 0, len + more);
    }
    if len < v.wrap {
      DivModUnique(len, v.wrap, 0, len);
    }
  }

  lemma Appended(mem: Bytes, n: nat, data: Bytes, input: Bytes)
    requires Buffered(mem, n, data) && n + |input| <= |mem|
    ensures Buffered(mem[..n] + input + mem[n + |input|..], n + |input|, data + input)
  {
  }

  lemma Completed(mem: Bytes, n: nat, data: Bytes, input: Bytes, p: nat)
    requires Buffered(mem, n, data) && p <= |input| && n + p == |mem|
    ensures mem[..n] + input[..p] + mem[n + p..] == (data + input)[|data| - n..|data| - n + |mem|]
  {
  }

  lemma Stashed(mem: Bytes, n: nat, data: Bytes, input: Bytes, p: nat)
    requires p <= |input| && n == |input| - p <= |mem| && mem[..n] == input[p..]
    ensures Buffered(mem, n, data + input)
  {
  }

  /** The buffer starts with the last n bytes of the message. */
  ghost predicate Buffered(mem: Bytes, n: nat, data: Bytes) {
    n <= |mem| && n <= |data| && mem[..n] == data[|data| - n..]
  }
}
