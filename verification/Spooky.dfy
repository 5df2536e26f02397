/** SpookyHash V2: any interleaving of updates and finals reports the hash of everything
    added so far, although each final writes into the buffer. */
module Spooky {
  import opened Bits
  import opened Blocks

  const NUM_VARS: nat := 12
  const BLOCK_SIZE: nat := 96
  const BUF_SIZE: nat := 192
  const SC_CONST: nat := 0xdeadbeefdeadbeef

  type Words = seq<nat>

  /** The mixing functions are arbitrary: Mix and End work on twelve words and a block, the
      short hash on a message and two seeds. */
  datatype Mixer = Mixer(mix: (Words, Bytes) -> Words, end: (Words, Bytes) -> Words,
                         short: (Bytes, nat, nat) -> (nat, nat)) {

    ghost predicate Ok() {
      forall h: Words, b: Bytes :: |h| == NUM_VARS ==> |mix(h, b)| == NUM_VARS && |end(h, b)| == NUM_VARS
    }
  }

  function InitState(seed1: nat, seed2: nat): Words {
    [seed1, seed2, SC_CONST, seed1, seed2, SC_CONST, seed1, seed2, SC_CONST, seed1, seed2, SC_CONST]
  }

  function Stepper(m: Mixer): (Words, Bytes, nat) -> Words {
    (h: Words, b: Bytes, i: nat) => m.mix(h, b)
  }

  /** The state after the first k blocks. */
  ghost function StateAfter(m: Mixer, seed1: nat, seed2: nat, data: Bytes, k: nat): (h: Words)
    requires BLOCK_SIZE * k <= |data|
  {
    Fold(Stepper(m), InitState(seed1, seed2), data, BLOCK_SIZE, k)
  }

  function Zeros(n: nat): Bytes {
    seq(n, _ => 0)
  }

  /** The last partial block: its bytes, zeros, and its length in the last byte. */
  function Padded(tail: Bytes): Bytes
    requires |tail| < BLOCK_SIZE
  {
    tail + Zeros(BLOCK_SIZE - 1 - |tail|) + [|tail|]
  }

  /** The hash of a whole message. */
  ghost function Hash(m: Mixer, seed1: nat, seed2: nat, data: Bytes): (nat, nat)
    requires m.Ok()
  {
    if |data| < BUF_SIZE then m.short(data, seed1, seed2)
    else
      var k := |data| / BLOCK_SIZE;
      StateLength(m, seed1, seed2, data, k);
      var h := m.end(StateAfter(m, seed1, seed2, data, k), Padded(data[BLOCK_SIZE * k..]));
      (h[0], h[1])
  }

  lemma {:induction false} StateLength(m: Mixer, seed1: nat, seed2: nat, data: Bytes, k: nat)
    requires m.Ok() && BLOCK_SIZE * k <= |data|
    ensures |StateAfter(m, seed1, seed2, data, k)| == NUM_VARS
    decreases k
  {
    if k > 0 {
      StateLength(m, seed1, seed2, data, k - 1);
      BlockStep(m, seed1, seed2, data, k - 1, BLOCK_SIZE * (k - 1));
    }
  }

  lemma BlockStep(m: Mixer, seed1: nat, seed2: nat, data: Bytes, k: nat, pos: nat)
    requires pos == BLOCK_SIZE * k && pos + BLOCK_SIZE <= |data|
    ensures BLOCK_SIZE * (k + 1) == pos + BLOCK_SIZE
    ensures StateAfter(m, seed1, seed2, data, k + 1)
         == m.mix(StateAfter(m, seed1, seed2, data, k), data[pos..pos + BLOCK_SIZE])
  {
    FoldStep(Stepper(m), InitState(seed1, seed2), data, BLOCK_SIZE, k, pos);
  }

  lemma StatePrefix(m: Mixer, seed1: nat, seed2: nat, data: Bytes, more: Bytes, k: nat)
    requires BLOCK_SIZE * k <= |data|
    ensures StateAfter(m, seed1, seed2, data + more, k) == StateAfter(m, seed1, seed2, data, k)
  {
    FoldPrefix(Stepper(m), InitState(seed1, seed2), data, more, BLOCK_SIZE, k);
  }

  /** All whole blocks of a stretch of the message. */
  method MixBlocks(m: Mixer, h0: Words, chunk: Bytes, ghost seed1: nat, ghost seed2: nat, ghost data: Bytes,
                   ghost from: nat, ghost k0: nat)
    returns (h: Words, p: nat, ghost k: nat)
    requires from == BLOCK_SIZE * k0 && from + |chunk| <= |data| && data[from..from + |chunk|] == chunk
    requires h0 == StateAfter(m, seed1, seed2, data, k0)
    ensures p <= |chunk| && |chunk| - p < BLOCK_SIZE && from + p == BLOCK_SIZE * k && k >= k0
    ensures h == StateAfter(m, seed1, seed2, data, k)
  {
    hide StateAfter;
    h, p, k := h0, 0, k0;
    while p + BLOCK_SIZE <= |chunk|
      invariant p <= |chunk| && from + p == BLOCK_SIZE * k && k >= k0 && h == StateAfter(m, seed1, seed2, data, k)
    {
      SubSlice(data, chunk, from, 0, |chunk|, p, BLOCK_SIZE);
      BlockStep(m, seed1, seed2, data, k, from + p);
      h := m.mix(h, chunk[p..p + BLOCK_SIZE]);
      p := p + BLOCK_SIZE;
      k := k + 1;
    }
  }

  /** SpookyHash::Hash128: the whole hash in one call. */
  method Hash128(m: Mixer, message: Bytes, seed1: nat, seed2: nat) returns (r: (nat, nat))
    requires m.Ok()
    ensures r == Hash(m, seed1, seed2, message)
  {
    if |message| < BUF_SIZE {
      return m.short(message, seed1, seed2);
    }
    var h, p;
    ghost var k;
    h, p, k := MixBlocks(m, InitState(seed1, seed2), message, seed1, seed2, message, 0, 0);
    Cut(|message|, BLOCK_SIZE, k, |message| - p);
    StateLength(m, seed1, seed2, message, k);
    var remainder := |message| - p;
    var buf := new Byte[BLOCK_SIZE];
    Copy(buf, 0, message[p..]);
    Copy(buf, remainder, Zeros(BLOCK_SIZE - remainder));
    buf[BLOCK_SIZE - 1] := remainder;
    assert buf[..] == Padded(message[p..]);
    h := m.end(h, buf[..]);
    r := (h[0], h[1]);
  }

  /** A streaming state: short messages stay in the buffer with only the seeds in the state;
      for long ones all blocks before the buffered bytes are mixed in. */
  ghost predicate Consistent(m: Mixer, seed1: nat, seed2: nat, state: Words, buffer: Bytes, length: nat, remainder: nat,
                             data: Bytes, k: nat)
  {
    && m.Ok() && |state| == NUM_VARS && |buffer| == BUF_SIZE && remainder < BUF_SIZE && length == |data|
    && |data| == BLOCK_SIZE * k + remainder && buffer[..remainder] == data[BLOCK_SIZE * k..]
    && (if length < BUF_SIZE then k == 0 && state[0] == seed1 && state[1] == seed2
        else state == StateAfter(m, seed1, seed2, data, k))
  }

  /** A fragment that fits into the buffer is only appended. */
  lemma Appends(m: Mixer, seed1: nat, seed2: nat, state: Words, buffer: Bytes, length: nat, remainder: nat, data: Bytes,
                k: nat, input: Bytes)
    requires Consistent(m, seed1, seed2, state, buffer, length, remainder, data, k) && remainder + |input| < BUF_SIZE
    ensures var b' := buffer[..remainder] + input + buffer[remainder + |input|..];
            Consistent(m, seed1, seed2, state, b', length + |input|, remainder + |input|, data + input, k)
  {
    StatePrefix(m, seed1, seed2, data, input, k);
    hide StateAfter;
    var b' := buffer[..remainder] + input + buffer[remainder + |input|..];
    assert b'[..remainder + |input|] == (data + input)[BLOCK_SIZE * k..];
  }

  /** The state variables that a long update starts from. */
  function StartWords(state: Words, length: nat): Words
    requires |state| == NUM_VARS
  {
    if length < BUF_SIZE then InitState(state[0], state[1]) else state
  }

  lemma StartsRight(m: Mixer, seed1: nat, seed2: nat, state: Words, buffer: Bytes, length: nat, remainder: nat,
                    data: Bytes, k: nat, input: Bytes)
    requires Consistent(m, seed1, seed2, state, buffer, length, remainder, data, k)
    ensures StartWords(state, length) == StateAfter(m, seed1, seed2, data + input, k)
    ensures m.Ok() && |state| == NUM_VARS && |buffer| == BUF_SIZE && remainder < BUF_SIZE
    ensures length == |data| == BLOCK_SIZE * k + remainder
    ensures buffer[..remainder] == data[BLOCK_SIZE * k..]
  {
    StatePrefix(m, seed1, seed2, data, input, k);
  }

  /** A buffer filled up by the fragment holds the next two blocks. */
  lemma TwoBlocks(m: Mixer, seed1: nat, seed2: nat, buffer: Bytes, remainder: nat, data: Bytes, k: nat, input: Bytes,
                  p: nat)
    requires |buffer| == BUF_SIZE == remainder + p && p <= |input| && |data| == BLOCK_SIZE * k + remainder
    requires buffer[..remainder] == data[BLOCK_SIZE * k..]
    ensures var b' := buffer[..remainder] + input[..p] + buffer[remainder + p..]; var all := data + input;
            BLOCK_SIZE * (k + 2) == |data| + p &&
            StateAfter(m, seed1, seed2, all, k + 2)
              == m.mix(m.mix(StateAfter(m, seed1, seed2, all, k), b'[..BLOCK_SIZE]), b'[BLOCK_SIZE..BUF_SIZE])
  {
    hide StateAfter;
    var b' := buffer[..remainder] + input[..p] + buffer[remainder + p..];
    var all, pos := data + input, BLOCK_SIZE * k;
    assert b'[0..BUF_SIZE] == all[pos..pos + BUF_SIZE];
    SubSlice(b', all, 0, pos, BUF_SIZE, 0, BLOCK_SIZE);
    SubSlice(b', all, 0, pos, BUF_SIZE, BLOCK_SIZE, BLOCK_SIZE);
    BlockStep(m, seed1, seed2, all, k, pos);
    BlockStep(m, seed1, seed2, all, k + 1, pos + BLOCK_SIZE);
  }

  /** After a long update the rest of the fragment is stashed and the state is the blocks'. */
  lemma Stashed(m: Mixer, seed1: nat, seed2: nat, h: Words, buffer: Bytes, data: Bytes, input: Bytes, p: nat, k: nat)
    requires m.Ok() && |buffer| == BUF_SIZE && p <= |input| && |input| - p < BLOCK_SIZE && |data + input| >= BUF_SIZE
    requires |data| + p == BLOCK_SIZE * k && h == StateAfter(m, seed1, seed2, data + input, k)
    ensures var b' := input[p..] + buffer[|input| - p..];
            Consistent(m, seed1, seed2, h, b', |data| + |input|, |input| - p, data + input, k)
  {
    StateLength(m, seed1, seed2, data + input, k);
    hide StateAfter;
    var b' := input[p..] + buffer[|input| - p..];
    assert b'[..|input| - p] == input[p..] == (data + input)[BLOCK_SIZE * k..];
  }

  /** Bytes from the remainder on are free to be overwritten. */
  lemma TailIsFree(m: Mixer, seed1: nat, seed2: nat, state: Words, buffer: Bytes, buffer': Bytes, length: nat,
                   remainder: nat, data: Bytes, k: nat)
    requires Consistent(m, seed1, seed2, state, buffer, length, remainder, data, k)
    requires |buffer'| == BUF_SIZE && buffer'[..remainder] == buffer[..remainder]
    ensures Consistent(m, seed1, seed2, state, buffer', length, remainder, data, k)
  {
  }

  /** Final on a long message: at most one whole block is left in the buffer before the tail. */
  lemma FinalParts(m: Mixer, seed1: nat, seed2: nat, state: Words, buffer: Bytes, length: nat, remainder: nat,
                   data: Bytes, k: nat)
    requires Consistent(m, seed1, seed2, state, buffer, length, remainder, data, k) && length >= BUF_SIZE
    ensures var base := if remainder >= BLOCK_SIZE then BLOCK_SIZE else 0;
            var h := if remainder >= BLOCK_SIZE then m.mix(state, buffer[..BLOCK_SIZE]) else state;
            base <= remainder < base + BLOCK_SIZE && |h| == NUM_VARS
            && Hash(m, seed1, seed2, data) == (m.end(h, Padded(buffer[base..remainder]))[0],
                                               m.end(h, Padded(buffer[base..remainder]))[1])
  {
    hide StateAfter;
    var k' := if remainder >= BLOCK_SIZE then k + 1 else k;
    if remainder >= BLOCK_SIZE {
      assert buffer[..remainder][..BLOCK_SIZE] == buffer[..BLOCK_SIZE];
      assert data[BLOCK_SIZE * k..][..BLOCK_SIZE] == data[BLOCK_SIZE * k..BLOCK_SIZE * k + BLOCK_SIZE];
      BlockStep(m, seed1, seed2, data, k, BLOCK_SIZE * k);
      assert buffer[..remainder][BLOCK_SIZE..] == buffer[BLOCK_SIZE..remainder];
      assert data[BLOCK_SIZE * k..][BLOCK_SIZE..] == data[BLOCK_SIZE * (k + 1)..];
    }
    Cut(|data|, BLOCK_SIZE, k', |data| - BLOCK_SIZE * k');
    StateLength(m, seed1, seed2, data, k');
  }

  class SpookyHash {
    const m: Mixer
    const data64: array<Byte>
    var state: Words
    var length: nat
    var remainder: nat

    /** The seeds, everything added since Init, and the blocks mixed in. */
    ghost var seed1: nat
    ghost var seed2: nat
    ghost var message: Bytes
    ghost var blocks: nat

    ghost predicate Valid()
      reads this, data64
    {
      data64.Length == BUF_SIZE && Consistent(m, seed1, seed2, state, data64[..], length, remainder, message, blocks)
    }

    constructor (m: Mixer)
      ensures this.m == m && data64.Length == BUF_SIZE && |state| == NUM_VARS && fresh(data64)
    {
      this.m, state, length, remainder := m, seq(NUM_VARS, _ => 0), 0, 0;
      data64 := new Byte[BUF_SIZE];
    }

    method Init(s1: nat, s2: nat)
      requires m.Ok() && data64.Length == BUF_SIZE && |state| == NUM_VARS
      modifies this
      ensures Valid() && message == [] && seed1 == s1 && seed2 == s2
    {
      length, remainder := 0, 0;
      state := state[0 := s1][1 := s2];
      seed1, seed2, message, blocks := s1, s2, [], 0;
    }

    /** Adds a fragment of the message. */
    method Update(input: Bytes)
      requires Valid()
      modifies this, data64
      ensures Valid() && message == old(message) + input && seed1 == old(seed1) && seed2 == old(seed2)
    {
      if remainder + |input| < BUF_SIZE {
        Appends(m, seed1, seed2, state, data64[..], length, remainder, message, blocks, input);
        hide Consistent;
        Copy(data64, remainder, input);
        length := length + |input|;
        remainder := remainder + |input|;
      } else {
        MixIn(input);
      }
      message := message + input;
    }

    /** The fragment completes at least the buffer: mixes in every whole block. */
    method MixIn(input: Bytes)
      requires Valid() && remainder + |input| >= BUF_SIZE
      modifies data64, `state, `length, `remainder, `blocks
      ensures data64.Length == BUF_SIZE
      ensures Consistent(m, seed1, seed2, state, data64[..], length, remainder, message + input, blocks)
    {
      hide Consistent;
      hide StateAfter;
      StartsRight(m, seed1, seed2, state, data64[..], length, remainder, message, blocks, input);
      var h, p := UseBuffer(StartWords(state, length), input);
      var q;
      ghost var k;
      h, q, k := MixBlocks(m, h, input[p..], seed1, seed2, message + input, |message| + p, blocks);
      Stashed(m, seed1, seed2, h, data64[..], message, input, p + q, k);
      ghost var last := data64[..];
      Copy(data64, 0, input[p + q..]);
      assert data64[..] == input[p + q..] + last[|input| - (p + q)..];
      length := length + |input|;
      remainder := |input| - (p + q);
      state := h;
      blocks := k;
    }

    /** Fills up what was stashed away and mixes the two blocks in. */
    method UseBuffer(h0: Words, input: Bytes) returns (h: Words, p: nat)
      requires data64.Length == BUF_SIZE && remainder < BUF_SIZE <= remainder + |input|
      requires |message| == BLOCK_SIZE * blocks + remainder && data64[..remainder] == message[BLOCK_SIZE * blocks..]
      requires h0 == StateAfter(m, seed1, seed2, message + input, blocks)
      modifies data64, `blocks
      ensures p <= |input| && |message| + p == BLOCK_SIZE * blocks
      ensures h == StateAfter(m, seed1, seed2, message + input, blocks)
    {
      hide StateAfter;
      h, p := h0, 0;
      if remainder > 0 {
        p := BUF_SIZE - remainder;
        TwoBlocks(m, seed1, seed2, data64[..], remainder, message, blocks, input, p);
        Copy(data64, remainder, input[..p]);
        h := m.mix(h, data64[..BLOCK_SIZE]);
        h := m.mix(h, data64[BLOCK_SIZE..BUF_SIZE]);
        blocks := blocks + 2;
      }
    }

    /** Reports the hash of everything added so far. It pads the tail inside the buffer, but
        only beyond the stashed bytes, so that the state can go on. */
    method Final() returns (r: (nat, nat))
      requires Valid()
      modifies data64
      ensures Valid() && r == Hash(m, seed1, seed2, message)
    {
      if length < BUF_SIZE {
        assert data64[..length] == message;
        return m.short(data64[..length], state[0], state[1]);
      }
      ghost var before := data64[..];
      FinalParts(m, seed1, seed2, state, before, length, remainder, message, blocks);
      var rem, h, base := remainder, state, 0;
      if rem >= BLOCK_SIZE {
        h := m.mix(h, data64[..BLOCK_SIZE]);
        base := BLOCK_SIZE;
        rem := rem - BLOCK_SIZE;
      }
      hide Hash;
      Pad(base, rem);
      TailIsFree(m, seed1, seed2, state, before, data64[..], length, remainder, message, blocks);
      hide Consistent;
      h := m.end(h, data64[base..base + BLOCK_SIZE]);
      r := (h[0], h[1]);
    }

    /** Zeros the rest of a block and writes the length of its tail into the last byte. */
    method Pad(base: nat, rem: nat)
      requires data64.Length == BUF_SIZE && base + BLOCK_SIZE <= BUF_SIZE && rem < BLOCK_SIZE
      modifies data64
      ensures data64[..base + rem] == old(data64[..])[..base + rem]
      ensures data64[base..base + BLOCK_SIZE] == Padded(old(data64[..])[base..base + rem])
    {
      Copy(data64, base + rem, Zeros(BLOCK_SIZE - rem));
      data64[base + BLOCK_SIZE - 1] := rem;
    }
  }
}
