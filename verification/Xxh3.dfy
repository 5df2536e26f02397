/** XXH3 for 64-bit hashes: the streaming state against the one-shot long hash. */
module Xxh3 {
  import opened Bits
  import opened Blocks
  import opened Wrappers

  const STRIPE_LEN: nat := 64
  const SECRET_CONSUME_RATE: nat := 8
  const SECRET_SIZE_MIN: nat := 136
  const SECRET_DEFAULT_SIZE: nat := 192
  const SECRET_LASTACC_START: nat := 7
  const SECRET_MERGEACCS_START: nat := 11
  const BUFFER_SIZE: nat := 256
  const MIDSIZE_MAX: nat := 240

  /** Sizes are 64 bits wide. */
  const SIZE_LIMIT: nat := 0x1_0000_0000_0000_0000

  /** The mixing functions, which read 64 bytes of input and of the secret, are arbitrary:
      every statement holds for all of them. */
  datatype Mixer<!A> = Mixer(
    init: A,
    accumulate512: (A, Bytes, Bytes) -> A,
    scrambleAcc: (A, Bytes) -> A,
    mergeAccs: (A, Bytes, nat) -> nat,
    short: (Bytes, Bytes, nat) -> nat,
    kSecret: Bytes,
    customSecret: nat -> Bytes)
  {
    ghost predicate Ok() {
      |kSecret| == SECRET_DEFAULT_SIZE && forall seed: nat :: |customSecret(seed)| == SECRET_DEFAULT_SIZE
    }
  }

  function StripesPerBlock(secret: Bytes): int {
    (|secret| - STRIPE_LEN) / SECRET_CONSUME_RATE
  }

  /** A secret long enough holds at least nine stripes per block. */
  lemma BlockFits(secret: Bytes)
    requires |secret| >= SECRET_SIZE_MIN
    ensures 9 <= StripesPerBlock(secret)
    ensures SECRET_CONSUME_RATE * StripesPerBlock(secret) + STRIPE_LEN <= |secret|
  {
  }

  /** The 64 secret bytes at an offset. */
  function SecretAt(secret: Bytes, off: nat): Bytes {
    if off + STRIPE_LEN <= |secret| then secret[off..off + STRIPE_LEN] else []
  }

  /** Stripe i of the message is accumulated with a secret segment that depends on its place
      in the block; after the last stripe of a block the accumulators are scrambled. */
  function Step<A>(m: Mixer<A>, secret: Bytes, a: A, stripe: Bytes, i: nat): A {
    if |secret| < SECRET_SIZE_MIN then a
    else
      BlockFits(secret);
      var nb := StripesPerBlock(secret);
      var mixed := m.accumulate512(a, stripe, SecretAt(secret, SECRET_CONSUME_RATE * (i % nb)));
      if (i + 1) % nb == 0 then m.scrambleAcc(mixed, SecretAt(secret, |secret| - STRIPE_LEN)) else mixed
  }

  function Stepper<A>(m: Mixer<A>, secret: Bytes): (A, Bytes, nat) -> A {
    (a: A, s: Bytes, i: nat) => Step(m, secret, a, s, i)
  }

  /** The accumulators after the first k stripes. */
  ghost function AccAfter<A>(m: Mixer<A>, secret: Bytes, data: Bytes, k: nat): A
    requires STRIPE_LEN * k <= |data|
  {
    Fold(Stepper(m, secret), m.init, data, STRIPE_LEN, k)
  }

  /** The long hash: all full stripes before the last byte, then the last 64 bytes. */
  ghost function LongAcc<A>(m: Mixer<A>, secret: Bytes, data: Bytes): A
    requires |secret| >= SECRET_SIZE_MIN && |data| > STRIPE_LEN
  {
    m.accumulate512(AccAfter(m, secret, data, (|data| - 1) / STRIPE_LEN), data[|data| - STRIPE_LEN..],
                    SecretAt(secret, |secret| - STRIPE_LEN - SECRET_LASTACC_START))
  }

  /** XXH3_64bits_internal: the value of a message under a secret or a seed. */
  ghost function Hash<A>(m: Mixer<A>, secret: Bytes, shortSecret: Bytes, seed: nat, data: Bytes): nat
    requires |secret| >= SECRET_SIZE_MIN
  {
    if |data| <= MIDSIZE_MAX then m.short(data, shortSecret, seed)
    else m.mergeAccs(LongAcc(m, secret, data), secret[SECRET_MERGEACCS_START..], |data|)
  }

  lemma StripeStep<A>(m: Mixer<A>, secret: Bytes, data: Bytes, k: nat, pos: nat)
    requires pos == STRIPE_LEN * k && pos + STRIPE_LEN <= |data|
    ensures STRIPE_LEN * (k + 1) == pos + STRIPE_LEN
    ensures AccAfter(m, secret, data, k + 1)
         == Step(m, secret, AccAfter(m, secret, data, k), data[pos..pos + STRIPE_LEN], k)
  {
    FoldStep(Stepper(m, secret), m.init, data, STRIPE_LEN, k, pos);
  }

  lemma AccPrefix<A>(m: Mixer<A>, secret: Bytes, data: Bytes, more: Bytes, k: nat)
    requires STRIPE_LEN * k <= |data|
    ensures AccAfter(m, secret, data + more, k) == AccAfter(m, secret, data, k)
  {
    FoldPrefix(Stepper(m, secret), m.init, data, more, STRIPE_LEN, k);
  }

  /** The chunk holds the message from stripe k on, as far as n stripes. */
  ghost predicate Holds(chunk: Bytes, at: nat, data: Bytes, k: nat, n: nat) {
    && at + STRIPE_LEN * n <= |chunk| && STRIPE_LEN * (k + n) <= |data|
    && chunk[at..at + STRIPE_LEN * n] == data[STRIPE_LEN * k..STRIPE_LEN * (k + n)]
  }

  lemma HoldsAt(chunk: Bytes, at: nat, data: Bytes, k: nat, n: nat, j: nat)
    requires Holds(chunk, at, data, k, n) && j < n
    ensures at + STRIPE_LEN * j + STRIPE_LEN <= |chunk| && STRIPE_LEN * (k + j) + STRIPE_LEN <= |data|
    ensures chunk[at + STRIPE_LEN * j..at + STRIPE_LEN * j + STRIPE_LEN]
         == data[STRIPE_LEN * (k + j)..STRIPE_LEN * (k + j) + STRIPE_LEN]
  {
    SubSlice(chunk, data, at, STRIPE_LEN * k, STRIPE_LEN * n, STRIPE_LEN * j, STRIPE_LEN);
  }

  /** The accumulators after k stripes, off of them in the current block; at the end of a
      block the scramble is still to come. */
  ghost predicate AccAt<A>(m: Mixer<A>, secret: Bytes, data: Bytes, k: nat, off: nat, acc: A)
    requires |secret| >= SECRET_SIZE_MIN && STRIPE_LEN * k <= |data|
  {
    BlockFits(secret);
    var nb := StripesPerBlock(secret);
    if off < nb then acc == AccAfter(m, secret, data, k) && off == k % nb
    else m.scrambleAcc(acc, SecretAt(secret, |secret| - STRIPE_LEN)) == AccAfter(m, secret, data, k) && k % nb == 0
  }

  lemma AccStep<A>(m: Mixer<A>, secret: Bytes, data: Bytes, k: nat, off: nat, acc: A)
    requires |secret| >= SECRET_SIZE_MIN && STRIPE_LEN * k + STRIPE_LEN <= |data|
    requires off < StripesPerBlock(secret) && AccAt(m, secret, data, k, off, acc)
    ensures var stripe := data[STRIPE_LEN * k..STRIPE_LEN * k + STRIPE_LEN];
            AccAt(m, secret, data, k + 1, off + 1,
                  m.accumulate512(acc, stripe, SecretAt(secret, SECRET_CONSUME_RATE * off)))
  {
    hide AccAfter;
    BlockFits(secret);
    StripeStep(m, secret, data, k, STRIPE_LEN * k);
    ModSuccessor(k, StripesPerBlock(secret));
  }

  /** XXH3_accumulate: n stripes of one block, with the secret segments from stripe number
      sofar of the block on; the scramble at a block end is left to the caller. */
  method Accumulate<A>(m: Mixer<A>, acc0: A, chunk: Bytes, at: nat, secret: Bytes, sofar: nat, n: nat,
                       ghost data: Bytes, ghost k: nat)
    returns (acc: A)
    requires |secret| >= SECRET_SIZE_MIN && Holds(chunk, at, data, k, n)
    requires sofar == k % StripesPerBlock(secret) && sofar + n <= StripesPerBlock(secret)
    requires acc0 == AccAfter(m, secret, data, k)
    ensures sofar + n < StripesPerBlock(secret) ==>
      acc == AccAfter(m, secret, data, k + n) && sofar + n == (k + n) % StripesPerBlock(secret)
    ensures sofar + n == StripesPerBlock(secret) ==>
      m.scrambleAcc(acc, SecretAt(secret, |secret| - STRIPE_LEN)) == AccAfter(m, secret, data, k + n)
      && (k + n) % StripesPerBlock(secret) == 0
  {
    hide AccAfter;
    BlockFits(secret);
    assert STRIPE_LEN * k <= |data|;
    hide Holds;
    hide StripesPerBlock;
    hide SecretAt;
    acc := acc0;
    for j := 0 to n
      invariant STRIPE_LEN * (k + j) <= |data| && AccAt(m, secret, data, k + j, sofar + j, acc)
    {
      HoldsAt(chunk, at, data, k, n, j);
      AccStep(m, secret, data, k + j, sofar + j, acc);
      acc := m.accumulate512(acc, chunk[at + STRIPE_LEN * j..at + STRIPE_LEN * j + STRIPE_LEN],
                             SecretAt(secret, SECRET_CONSUME_RATE * (sofar + j)));
    }
  }

  lemma HoldsPart(chunk: Bytes, at: nat, data: Bytes, k: nat, n: nat, j: nat)
    requires Holds(chunk, at, data, k, n) && j <= n
    ensures Holds(chunk, at, data, k, j) && Holds(chunk, at + STRIPE_LEN * j, data, k + j, n - j)
  {
    SubSlice(chunk, data, at, STRIPE_LEN * k, STRIPE_LEN * n, 0, STRIPE_LEN * j);
    SubSlice(chunk, data, at, STRIPE_LEN * k, STRIPE_LEN * n, STRIPE_LEN * j, STRIPE_LEN * (n - j));
  }

  /** XXH3_consumeStripes: up to one block of stripes, with a scramble where a block ends. */
  method ConsumeStripes<A>(m: Mixer<A>, acc0: A, sofar0: nat, chunk: Bytes, at: nat, n: nat, secret: Bytes,
                           ghost data: Bytes, ghost k: nat)
    returns (acc: A, sofar: nat)
    requires |secret| >= SECRET_SIZE_MIN && Holds(chunk, at, data, k, n) && n <= StripesPerBlock(secret)
    requires sofar0 == k % StripesPerBlock(secret) && acc0 == AccAfter(m, secret, data, k)
    ensures acc == AccAfter(m, secret, data, k + n) && sofar == (k + n) % StripesPerBlock(secret)
  {
    hide AccAfter;
    hide Holds;
    BlockFits(secret);
    var nb := StripesPerBlock(secret);
    if nb - sofar0 <= n {
      var toEnd := nb - sofar0;
      HoldsPart(chunk, at, data, k, n, toEnd);
      acc := Accumulate(m, acc0, chunk, at, secret, sofar0, toEnd, data, k);
      acc := m.scrambleAcc(acc, SecretAt(secret, |secret| - STRIPE_LEN));
      acc := Accumulate(m, acc, chunk, at + STRIPE_LEN * toEnd, secret, 0, n - toEnd, data, k + toEnd);
      sofar := n - toEnd;
    } else {
      acc := Accumulate(m, acc0, chunk, at, secret, sofar0, n, data, k);
      sofar := sofar0 + n;
    }
  }

  /** The stripe at which block n starts. */
  ghost function FirstStripe(nb: nat, n: nat): nat {
    nb * n
  }

  function BlockAt(blockLen: nat, n: nat): nat {
    blockLen * n
  }

  /** The blocks that end before the last byte. */
  function WholeBlocks(len: nat, blockLen: nat): nat
    requires blockLen > 0 && len > 0
  {
    (len - 1) / blockLen
  }

  /** The stripes before the last byte fill the blocks. */
  lemma BlockStart(len: nat, nb: nat, blockLen: nat, n: nat)
    requires blockLen == STRIPE_LEN * nb > 0 && len > STRIPE_LEN && n <= WholeBlocks(len, blockLen)
    ensures BlockAt(blockLen, n) == STRIPE_LEN * FirstStripe(nb, n) <= len - 1 && FirstStripe(nb, n) % nb == 0
    ensures n < WholeBlocks(len, blockLen) ==>
      BlockAt(blockLen, n) + blockLen <= len - 1 && FirstStripe(nb, n) + nb == FirstStripe(nb, n + 1)
    ensures n == WholeBlocks(len, blockLen) ==>
      var rest := (len - 1 - BlockAt(blockLen, n)) / STRIPE_LEN;
      0 <= rest < nb && FirstStripe(nb, n) + rest == (len - 1) / STRIPE_LEN
  {
    var blocks := (len - 1) / blockLen;
    assert len - 1 == blockLen * blocks + (len - 1) % blockLen;
    MulLe(blockLen, n, blocks);
    Regroup(STRIPE_LEN, nb, n);
    DivModUnique(nb * n, nb, n, 0);
    if n < blocks {
      MulLe(blockLen, n + 1, blocks);
      assert nb * (n + 1) == nb * n + nb;
    } else {
      var left := len - 1 - blockLen * n;
      var rest := left / STRIPE_LEN;
      assert left == STRIPE_LEN * rest + left % STRIPE_LEN;
      DivModUnique(len - 1, STRIPE_LEN, nb * n + rest, left % STRIPE_LEN);
    }
  }

  lemma Regroup(a: nat, b: nat, c: nat)
    ensures a * b * c == a * (b * c)
  {
  }

  lemma HoldsSelf(data: Bytes, k: nat, n: nat)
    requires STRIPE_LEN * (k + n) <= |data|
    ensures Holds(data, STRIPE_LEN * k, data, k, n)
  {
  }

  /** One whole block and its scramble. */
  method HashBlock<A>(m: Mixer<A>, acc0: A, input: Bytes, at: nat, secret: Bytes, ghost k: nat) returns (acc: A)
    requires |secret| >= SECRET_SIZE_MIN && at == STRIPE_LEN * k && at + STRIPE_LEN * StripesPerBlock(secret) <= |input|
    requires k % StripesPerBlock(secret) == 0 && acc0 == AccAfter(m, secret, input, k)
    ensures acc == AccAfter(m, secret, input, k + StripesPerBlock(secret))
  {
    hide AccAfter;
    hide Holds;
    hide SecretAt;
    BlockFits(secret);
    HoldsSelf(input, k, StripesPerBlock(secret));
    acc := Accumulate(m, acc0, input, at, secret, 0, StripesPerBlock(secret), input, k);
    acc := m.scrambleAcc(acc, SecretAt(secret, |secret| - STRIPE_LEN));
  }

  /** The last, partial block and the last 64 bytes. */
  method HashEnd<A>(m: Mixer<A>, acc0: A, input: Bytes, at: nat, secret: Bytes, nbStripes: nat, ghost k: nat)
    returns (acc: A)
    requires |secret| >= SECRET_SIZE_MIN && at == STRIPE_LEN * k && |input| > STRIPE_LEN
    requires k % StripesPerBlock(secret) == 0 && nbStripes < StripesPerBlock(secret)
    requires k + nbStripes == (|input| - 1) / STRIPE_LEN && acc0 == AccAfter(m, secret, input, k)
    ensures acc == LongAcc(m, secret, input)
  {
    hide AccAfter;
    hide Holds;
    HoldsSelf(input, k, nbStripes);
    acc := Accumulate(m, acc0, input, at, secret, 0, nbStripes, input, k);
    acc := m.accumulate512(acc, input[|input| - STRIPE_LEN..],
                           SecretAt(secret, |secret| - STRIPE_LEN - SECRET_LASTACC_START));
  }

  /** XXH3_hashLong_internal_loop: block by block, then the partial block and the last stripe. */
  method HashLong<A>(m: Mixer<A>, input: Bytes, secret: Bytes) returns (acc: A)
    requires |secret| >= SECRET_SIZE_MIN && |input| > STRIPE_LEN
    ensures acc == LongAcc(m, secret, input)
  {
    hide AccAfter;
    hide LongAcc;
    hide StripesPerBlock;
    BlockFits(secret);
    var nb := StripesPerBlock(secret);
    var blockLen := STRIPE_LEN * nb;
    var blocks := WholeBlocks(|input|, blockLen);
    acc := m.init;
    StartAcc(m, secret, input);
    assert FirstStripe(nb, 0) == 0;
    hide FirstStripe;
    hide BlockAt;
    hide WholeBlocks;
    BlockStart(|input|, nb, blockLen, 0);
    for n := 0 to blocks
      invariant STRIPE_LEN * FirstStripe(nb, n) <= |input| && acc == AccAfter(m, secret, input, FirstStripe(nb, n))
    {
      BlockStart(|input|, nb, blockLen, n);
      BlockStart(|input|, nb, blockLen, n + 1);
      acc := HashBlock(m, acc, input, BlockAt(blockLen, n), secret, FirstStripe(nb, n));
    }
    BlockStart(|input|, nb, blockLen, blocks);
    acc := HashEnd(m, acc, input, BlockAt(blockLen, blocks), secret,
                   (|input| - 1 - BlockAt(blockLen, blocks)) / STRIPE_LEN, FirstStripe(nb, blocks));
  }

  lemma StartAcc<A>(m: Mixer<A>, secret: Bytes, data: Bytes)
    ensures AccAfter(m, secret, data, 0) == m.init
  {
  }

  /** XXH3_64bits_internal with the long hash of its callers. */
  method OneShot<A>(m: Mixer<A>, input: Bytes, secret: Bytes, shortSecret: Bytes, seed: nat) returns (h: nat)
    requires |secret| >= SECRET_SIZE_MIN
    ensures h == Hash(m, secret, shortSecret, seed, input)
  {
    if |input| <= MIDSIZE_MAX {
      h := m.short(input, shortSecret, seed);
    } else {
      var acc := HashLong(m, input, secret);
      h := m.mergeAccs(acc, secret[SECRET_MERGEACCS_START..], |input|);
    }
  }

  // ---------------------------------------------------------------- streaming

  function LastStart(bs: nat): nat {
    if bs > BUFFER_SIZE - STRIPE_LEN then bs else BUFFER_SIZE - STRIPE_LEN
  }

  /** The buffer from position lo on still holds the message bytes just before stripe k. */
  ghost predicate TailKept(buffer: Bytes, lo: nat, data: Bytes, k: nat) {
    && |buffer| == BUFFER_SIZE && BUFFER_SIZE - STRIPE_LEN <= lo <= BUFFER_SIZE
    && STRIPE_LEN <= STRIPE_LEN * k <= |data|
    && buffer[lo..] == data[STRIPE_LEN * k - (BUFFER_SIZE - lo)..STRIPE_LEN * k]
  }

  /** A streaming state: k stripes are accumulated, bs bytes are buffered, and once anything
      has been accumulated the buffer is never empty and keeps the last bytes before. */
  ghost predicate Consistent<A>(m: Mixer<A>, secret: Bytes, acc: A, sofar: nat, buffer: Bytes, bs: nat, data: Bytes,
                                k: nat)
  {
    && |secret| >= SECRET_SIZE_MIN && |buffer| == BUFFER_SIZE && bs <= BUFFER_SIZE && |data| == STRIPE_LEN * k + bs
    && acc == AccAfter(m, secret, data, k) && sofar == k % StripesPerBlock(secret)
    && buffer[..bs] == data[STRIPE_LEN * k..]
    && (k > 0 ==> k >= 4 && bs > 0 && TailKept(buffer, LastStart(bs), data, k))
  }

  /** While an update consumes: everything before position p of the input is accumulated, and
      the end of the buffer holds the bytes before. */
  ghost predicate Consuming<A>(m: Mixer<A>, secret: Bytes, acc: A, sofar: nat, buffer: Bytes, old0: Bytes, input: Bytes,
                               p: nat, k: nat) {
    && |secret| >= SECRET_SIZE_MIN && p <= |input| && |old0| + p == STRIPE_LEN * k && |buffer| == BUFFER_SIZE
    && acc == AccAfter(m, secret, old0 + input, k) && sofar == k % StripesPerBlock(secret)
    && (k > 0 ==> k >= 4 && TailKept(buffer, BUFFER_SIZE - STRIPE_LEN, old0 + input, k))
  }

  lemma TailAppends(buffer: Bytes, bs: nat, data: Bytes, k: nat, input: Bytes)
    requires TailKept(buffer, LastStart(bs), data, k) && bs + |input| <= BUFFER_SIZE
    ensures TailKept(buffer[..bs] + input + buffer[bs + |input|..], LastStart(bs + |input|), data + input, k)
  {
    var lo, lo' := LastStart(bs), LastStart(bs + |input|);
    var from, to := STRIPE_LEN * k - (BUFFER_SIZE - lo), STRIPE_LEN * k;
    SuffixKept(buffer, bs, input, lo');
    DropMore(buffer, lo, lo', data, from, to);
    assert (data + input)[from + (lo' - lo)..to] == data[from + (lo' - lo)..to];
  }

  lemma SuffixKept(buffer: Bytes, bs: nat, input: Bytes, x: nat)
    requires bs + |input| <= x <= |buffer|
    ensures (buffer[..bs] + input + buffer[bs + |input|..])[x..] == buffer[x..]
  {
  }

  lemma DropMore(buffer: Bytes, lo: nat, lo': nat, data: Bytes, from: nat, to: nat)
    requires lo <= lo' <= |buffer| && from + (|buffer| - lo) == to <= |data| && buffer[lo..] == data[from..to]
    ensures buffer[lo'..] == data[from + (lo' - lo)..to]
  {
    assert buffer[lo'..] == buffer[lo..][lo' - lo..];
    assert data[from + (lo' - lo)..to] == data[from..to][lo' - lo..];
  }

  lemma PrefixAppends(buffer: Bytes, bs: nat, data: Bytes, from: nat, input: Bytes)
    requires bs + |input| <= |buffer| && from <= |data| && buffer[..bs] == data[from..]
    ensures (buffer[..bs] + input + buffer[bs + |input|..])[..bs + |input|] == (data + input)[from..]
  {
  }

  /** Input that fits into the buffer is only appended. */
  lemma Appends<A>(m: Mixer<A>, secret: Bytes, acc: A, sofar: nat, buffer: Bytes, bs: nat, data: Bytes, k: nat,
                   input: Bytes)
    requires Consistent(m, secret, acc, sofar, buffer, bs, data, k) && bs + |input| <= BUFFER_SIZE
    ensures var b' := buffer[..bs] + input + buffer[bs + |input|..];
            Consistent(m, secret, acc, sofar, b', bs + |input|, data + input, k)
  {
    AccPrefix(m, secret, data, input, k);
    hide AccAfter;
    PrefixAppends(buffer, bs, data, STRIPE_LEN * k, input);
    if k > 0 {
      TailAppends(buffer, bs, data, k, input);
    }
    hide TailKept;
  }

  /** A full buffer holds the next four stripes. */
  lemma FullBuffer<A>(m: Mixer<A>, secret: Bytes, acc: A, sofar: nat, buffer: Bytes, bs: nat, data: Bytes, k: nat,
                      input: Bytes, load: nat)
    requires Consistent(m, secret, acc, sofar, buffer, bs, data, k) && bs + load == BUFFER_SIZE && load <= |input|
    ensures var b' := buffer[..bs] + input[..load] + buffer[bs + load..];
            && Holds(b', 0, data + input, k, 4) && TailKept(b', BUFFER_SIZE - STRIPE_LEN, data + input, k + 4)
            && acc == AccAfter(m, secret, data + input, k) && |data| + load == STRIPE_LEN * (k + 4)
  {
    AccPrefix(m, secret, data, input, k);
    hide AccAfter;
    var all := data + input;
    var b' := buffer[..bs] + input[..load] + buffer[bs + load..];
    assert b'[0..STRIPE_LEN * 4] == all[STRIPE_LEN * k..STRIPE_LEN * (k + 4)];
    SubSlice(b', all, 0, STRIPE_LEN * k, BUFFER_SIZE, BUFFER_SIZE - STRIPE_LEN, STRIPE_LEN);
  }

  lemma StartConsuming<A>(m: Mixer<A>, secret: Bytes, acc: A, sofar: nat, buffer: Bytes, data: Bytes, k: nat,
                          input: Bytes)
    requires Consistent(m, secret, acc, sofar, buffer, 0, data, k)
    ensures k == 0 && Consuming(m, secret, acc, sofar, buffer, data, input, 0, k)
  {
    AccPrefix(m, secret, data, input, k);
  }

  /** The next four stripes lie in the input. */
  lemma InputHolds(data: Bytes, input: Bytes, p: nat, k: nat)
    requires |data| + p == STRIPE_LEN * k && p + BUFFER_SIZE <= |input|
    ensures Holds(input, p, data + input, k, 4)
  {
  }

  /** The last stripe before position p is copied to the end of the buffer. */
  lemma TailSaved(buffer: Bytes, data: Bytes, input: Bytes, p: nat, k: nat)
    requires |buffer| == BUFFER_SIZE && |data| + p == STRIPE_LEN * k && STRIPE_LEN <= p <= |input|
    ensures var from := BUFFER_SIZE - STRIPE_LEN;
            TailKept(buffer[..from] + input[p - STRIPE_LEN..p] + buffer[BUFFER_SIZE..], from, data + input, k)
  {
  }

  /** The rest of the input goes to the start of the buffer. */
  lemma RestBuffered<A>(m: Mixer<A>, secret: Bytes, acc: A, sofar: nat, buffer: Bytes, data: Bytes, input: Bytes,
                        p: nat, k: nat)
    requires Consuming(m, secret, acc, sofar, buffer, data, input, p, k) && 0 < |input| - p <= BUFFER_SIZE
    ensures Consistent(m, secret, acc, sofar, input[p..] + buffer[|input| - p..], |input| - p, data + input, k)
  {
    hide AccAfter;
    var b' := input[p..] + buffer[|input| - p..];
    if k > 0 {
      var from, lo := BUFFER_SIZE - STRIPE_LEN, LastStart(|input| - p);
      assert b'[lo..] == buffer[from..][lo - from..];
      assert TailKept(b', lo, data + input, k);
    }
  }

  /** Bytes of the last stripe that are still at the end of the buffer, then all buffered ones. */
  lemma LastStripe(buffer: Bytes, bs: nat, data: Bytes, k: nat)
    requires |buffer| == BUFFER_SIZE && 0 < bs < STRIPE_LEN && |data| == STRIPE_LEN * k + bs && k > 0
    requires buffer[..bs] == data[STRIPE_LEN * k..] && TailKept(buffer, LastStart(bs), data, k)
    ensures buffer[BUFFER_SIZE - (STRIPE_LEN - bs)..] + buffer[..bs] == data[|data| - STRIPE_LEN..]
  {
    var from := BUFFER_SIZE - STRIPE_LEN;
    assert buffer[from + bs..] == buffer[from..][bs..];
  }

  /** With less than a stripe buffered, the stripes before the last byte are the accumulated
      ones; otherwise the buffer holds the rest of them. */
  lemma StripesBeforeLast(len: nat, k: nat, bs: nat)
    requires len == STRIPE_LEN * k + bs && bs > 0
    ensures (len - 1) / STRIPE_LEN == k + (bs - 1) / STRIPE_LEN
  {
    assert bs - 1 == STRIPE_LEN * ((bs - 1) / STRIPE_LEN) + (bs - 1) % STRIPE_LEN;
    DivModUnique(len - 1, STRIPE_LEN, k + (bs - 1) / STRIPE_LEN, (bs - 1) % STRIPE_LEN);
  }

  class Xxh3State<A> {
    const m: Mixer<A>
    var acc: A
    var customSecret: Bytes
    const buffer: array<Byte>
    var bufferedSize: nat
    var nbStripesSoFar: nat
    var totalLen: nat
    var nbStripesPerBlock: nat
    var secretLimit: nat
    var seed: nat
    var extSecret: Option<Bytes>

    /** Everything added since the reset, and how many of its stripes are accumulated. */
    ghost var data: Bytes
    ghost var stripes: nat

    function Secret(): Bytes
      reads this
    {
      if extSecret.None? then customSecret else extSecret.value
    }

    /** Enough to be reset: the custom secret belongs to the seed. */
    ghost predicate Resettable()
      reads this
    {
      m.Ok() && buffer.Length == BUFFER_SIZE && (seed != 0 ==> customSecret == m.customSecret(seed))
    }

    ghost predicate Valid()
      reads this, buffer
    {
      && Resettable()
      && Consistent(m, Secret(), acc, nbStripesSoFar, buffer[..], bufferedSize, data, stripes)
      && totalLen == |data| && secretLimit == |Secret()| - STRIPE_LEN && nbStripesPerBlock == StripesPerBlock(Secret())
      && (seed != 0 ==> extSecret.None?) && (seed == 0 ==> extSecret.Some?)
    }

    /** The one-shot function that this state streams: by seed or by secret. */
    ghost function Target(message: Bytes): nat
      requires Valid()
      reads this, buffer
    {
      Hash(m, Secret(), if seed != 0 then m.kSecret else Secret(), seed, message)
    }

    /** XXH3_createState and XXH3_INITSTATE. */
    constructor (m: Mixer<A>)
      requires m.Ok()
      ensures Resettable() && this.m == m && fresh(buffer)
    {
      this.m, acc, customSecret, seed := m, m.init, [], 0;
      bufferedSize, nbStripesSoFar, totalLen, nbStripesPerBlock, secretLimit := 0, 0, 0, 0, 0;
      extSecret, data, stripes := None, [], 0;
      buffer := new Byte[BUFFER_SIZE];
    }

    method ResetInternal(newSeed: nat, secret: Option<Bytes>, secretSize: nat)
      requires secretSize < SIZE_LIMIT
      modifies this
      ensures acc == m.init && seed == newSeed && extSecret == secret && customSecret == old(customSecret)
      ensures bufferedSize == nbStripesSoFar == totalLen == stripes == 0 && data == []
      ensures secretLimit == secretSize - STRIPE_LEN + (if secretSize < STRIPE_LEN then SIZE_LIMIT else 0)
      ensures nbStripesPerBlock == secretLimit / SECRET_CONSUME_RATE
    {
      bufferedSize, nbStripesSoFar, totalLen := 0, 0, 0;
      acc, seed, extSecret := m.init, newSeed, secret;
      secretLimit := secretSize - STRIPE_LEN + (if secretSize < STRIPE_LEN then SIZE_LIMIT else 0);
      nbStripesPerBlock := secretLimit / SECRET_CONSUME_RATE;
      data, stripes := [], 0;
    }

    /** XXH3_64bits_reset: the default secret. */
    method Reset()
      requires Resettable()
      modifies this
      ensures Valid() && data == [] && seed == 0 && Secret() == m.kSecret && |Secret()| == 192
    {
      ResetInternal(0, Some(m.kSecret), SECRET_DEFAULT_SIZE);
      StartAcc(m, m.kSecret, []);
    }

    /** XXH3_64bits_reset_withSecret: refuses secrets that are too short, after the state was
        reset; below a stripe the secret limit has wrapped. */
    method ResetWithSecret(secret: Bytes) returns (ok: bool)
      requires Resettable() && |secret| < SIZE_LIMIT
      modifies this
      ensures ok <==> |secret| >= 136
      ensures ok ==> Valid() && data == [] && seed == 0 && Secret() == secret
      ensures Resettable()
    {
      ResetInternal(0, Some(secret), |secret|);
      StartAcc(m, secret, []);
      ok := |secret| >= SECRET_SIZE_MIN;
    }

    /** XXH3_64bits_reset_withSeed: derives the custom secret unless it is already there. */
    method ResetWithSeed(newSeed: nat)
      requires Resettable()
      modifies this
      ensures Valid() && data == [] && seed == newSeed
      ensures Secret() == if newSeed == 0 then m.kSecret else m.customSecret(newSeed)
    {
      if newSeed == 0 {
        Reset();
        return;
      }
      if newSeed != seed {
        customSecret := m.customSecret(newSeed);
      }
      ResetInternal(newSeed, None, SECRET_DEFAULT_SIZE);
      StartAcc(m, customSecret, []);
    }

    /** XXH3_update: adds more of the message, in any chunk size. */
    method Update(input: Bytes)
      requires Valid()
      modifies this, buffer
      ensures Valid() && data == old(data) + input && seed == old(seed) && Secret() == old(Secret())
    {
      hide Consistent;
      totalLen := totalLen + |input|;
      if bufferedSize + |input| <= BUFFER_SIZE {
        Append(input);
      } else {
        Overflow(input);
      }
      data := data + input;
    }

    method Append(input: Bytes)
      requires bufferedSize + |input| <= BUFFER_SIZE == buffer.Length
      requires Consistent(m, Secret(), acc, nbStripesSoFar, buffer[..], bufferedSize, data, stripes)
      modifies `bufferedSize, buffer
      ensures Consistent(m, Secret(), acc, nbStripesSoFar, buffer[..], bufferedSize, data + input, stripes)
    {
      Appends(m, Secret(), acc, nbStripesSoFar, buffer[..], bufferedSize, data, stripes, input);
      hide Consistent;
      Copy(buffer, bufferedSize, input);
      bufferedSize := bufferedSize + |input|;
    }

    /** The input does not fit into the buffer any more. */
    method Overflow(input: Bytes)
      requires bufferedSize + |input| > BUFFER_SIZE == buffer.Length
      requires Consistent(m, Secret(), acc, nbStripesSoFar, buffer[..], bufferedSize, data, stripes)
      modifies `acc, `nbStripesSoFar, `bufferedSize, `stripes, buffer
      ensures Consistent(m, Secret(), acc, nbStripesSoFar, buffer[..], bufferedSize, data + input, stripes)
    {
      hide Consistent;
      hide Consuming;
      var p := CompleteBuffer(input);
      p := ConsumeInput(input, p);
      RestBuffered(m, Secret(), acc, nbStripesSoFar, buffer[..], data, input, p, stripes);
      ghost var last := buffer[..];
      Copy(buffer, 0, input[p..]);
      assert buffer[..] == input[p..] + last[|input| - p..];
      bufferedSize := |input| - p;
    }

    /** Fills a partly filled buffer up and consumes it. */
    method CompleteBuffer(input: Bytes) returns (p: nat)
      requires buffer.Length == BUFFER_SIZE && bufferedSize + |input| > BUFFER_SIZE
      requires Consistent(m, Secret(), acc, nbStripesSoFar, buffer[..], bufferedSize, data, stripes)
      modifies `acc, `nbStripesSoFar, `bufferedSize, `stripes, buffer
      ensures Consuming(m, Secret(), acc, nbStripesSoFar, buffer[..], data, input, p, stripes)
      ensures p < |input| && (stripes == 0 ==> |input| > BUFFER_SIZE)
    {
      hide AccAfter;
      p := 0;
      if bufferedSize > 0 {
        p := BUFFER_SIZE - bufferedSize;
        FullBuffer(m, Secret(), acc, nbStripesSoFar, buffer[..], bufferedSize, data, stripes, input, p);
        BlockFits(Secret());
        Copy(buffer, bufferedSize, input[..p]);
        acc, nbStripesSoFar :=
          ConsumeStripes(m, acc, nbStripesSoFar, buffer[..], 0, 4, Secret(), data + input, stripes);
        bufferedSize := 0;
        stripes := stripes + 4;
      } else {
        StartConsuming(m, Secret(), acc, nbStripesSoFar, buffer[..], data, stripes, input);
      }
    }

    /** Consumes the input by buffer sizes as long as something remains after it. */
    method ConsumeInput(input: Bytes, start: nat) returns (p: nat)
      requires buffer.Length == BUFFER_SIZE && start < |input| && (stripes == 0 ==> |input| > BUFFER_SIZE)
      requires Consuming(m, Secret(), acc, nbStripesSoFar, buffer[..], data, input, start, stripes)
      modifies `acc, `nbStripesSoFar, `stripes, buffer
      ensures Consuming(m, Secret(), acc, nbStripesSoFar, buffer[..], data, input, p, stripes)
      ensures 0 < |input| - p <= BUFFER_SIZE
    {
      hide AccAfter;
      p := start;
      if p + BUFFER_SIZE < |input| {
        BlockFits(Secret());
        while p + BUFFER_SIZE < |input|
          invariant p < |input| && |data| + p == STRIPE_LEN * stripes
          invariant acc == AccAfter(m, Secret(), data + input, stripes)
          invariant nbStripesSoFar == stripes % StripesPerBlock(Secret())
          invariant p == start || (p >= STRIPE_LEN && stripes >= 4)
        {
          InputHolds(data, input, p, stripes);
          acc, nbStripesSoFar := ConsumeStripes(m, acc, nbStripesSoFar, input, p, 4, Secret(), data + input, stripes);
          p := p + BUFFER_SIZE;
          stripes := stripes + 4;
        }
        TailSaved(buffer[..], data, input, p, stripes);
        Copy(buffer, BUFFER_SIZE - STRIPE_LEN, input[p - STRIPE_LEN..p]);
      }
    }

    /** XXH3_digest_long: on a copy of the accumulators, the buffered stripes and the last 64
        bytes, some of which may already have been consumed. */
    method DigestLong() returns (r: A)
      requires Valid() && |data| > MIDSIZE_MAX
      ensures r == LongAcc(m, Secret(), data)
    {
      hide AccAfter;
      hide Consistent;
      hide Holds;
      var secret := Secret();
      DigestParts(m, secret, acc, nbStripesSoFar, buffer[..], bufferedSize, data, stripes);
      r := acc;
      if bufferedSize >= STRIPE_LEN {
        var n, sofar := (bufferedSize - 1) / STRIPE_LEN, nbStripesSoFar;
        r, sofar := ConsumeStripes(m, r, sofar, buffer[..], 0, n, secret, data, stripes);
        r := m.accumulate512(r, buffer[bufferedSize - STRIPE_LEN..bufferedSize],
                             SecretAt(secret, secretLimit - SECRET_LASTACC_START));
      } else {
        var lastStripe := buffer[BUFFER_SIZE - (STRIPE_LEN - bufferedSize)..] + buffer[..bufferedSize];
        r := m.accumulate512(r, lastStripe, SecretAt(secret, secretLimit - SECRET_LASTACC_START));
      }
    }

    /** XXH3_64bits_digest: the one-shot hash of everything added so far. */
    method Digest() returns (h: nat)
      requires Valid()
      ensures h == Target(data)
      ensures |data| <= 240 ==> h == m.short(data, if seed != 0 then m.kSecret else Secret(), seed)
      ensures |data| > 240 ==>
                |Secret()| >= 136 && h == m.mergeAccs(LongAcc(m, Secret(), data), Secret()[11..], |data|)
    {
      hide AccAfter;
      hide LongAcc;
      var secret := Secret();
      if totalLen > MIDSIZE_MAX {
        var r := DigestLong();
        h := m.mergeAccs(r, secret[SECRET_MERGEACCS_START..], totalLen);
      } else {
        ShortIsBuffered(m, secret, acc, nbStripesSoFar, buffer[..], bufferedSize, data, stripes);
        h := OneShot(m, buffer[..totalLen], secret, if seed != 0 then m.kSecret else secret, seed);
      }
    }
  }

  lemma BufferHolds(buffer: Bytes, bs: nat, data: Bytes, k: nat, n: nat)
    requires |buffer| == BUFFER_SIZE && 0 < bs <= BUFFER_SIZE && |data| == STRIPE_LEN * k + bs
    requires buffer[..bs] == data[STRIPE_LEN * k..] && n == (bs - 1) / STRIPE_LEN
    ensures Holds(buffer, 0, data, k, n)
  {
    var from, len := STRIPE_LEN * k, STRIPE_LEN * n;
    assert buffer[0..bs] == data[from..from + bs];
    assert len < bs && STRIPE_LEN * (k + n) == from + len;
    SubSlice(buffer, data, 0, from, bs, 0, len);
    assert buffer[0..0 + len] == data[from..from + len];
  }

  lemma BufferEnd(buffer: Bytes, bs: nat, data: Bytes, from: nat)
    requires STRIPE_LEN <= bs <= |buffer| && |data| == from + bs && buffer[..bs] == data[from..]
    ensures buffer[bs - STRIPE_LEN..bs] == data[|data| - STRIPE_LEN..]
  {
    assert buffer[0..bs] == data[from..from + bs];
    SubSlice(buffer, data, 0, from, bs, bs - STRIPE_LEN, STRIPE_LEN);
  }

  /** What the digest of a long message finds in the state. */
  lemma DigestParts<A>(m: Mixer<A>, secret: Bytes, acc: A, sofar: nat, buffer: Bytes, bs: nat, data: Bytes, k: nat)
    requires Consistent(m, secret, acc, sofar, buffer, bs, data, k) && |data| > MIDSIZE_MAX
    ensures |secret| >= SECRET_SIZE_MIN && 0 < bs <= BUFFER_SIZE == |buffer| && STRIPE_LEN * k <= |data|
    ensures acc == AccAfter(m, secret, data, k) && sofar == k % StripesPerBlock(secret)
    ensures var n := (bs - 1) / STRIPE_LEN;
            Holds(buffer, 0, data, k, n) && n <= StripesPerBlock(secret) && (|data| - 1) / STRIPE_LEN == k + n
    ensures bs >= STRIPE_LEN ==> buffer[bs - STRIPE_LEN..bs] == data[|data| - STRIPE_LEN..]
    ensures bs < STRIPE_LEN ==>
      && (bs - 1) / STRIPE_LEN == 0
      && buffer[BUFFER_SIZE - (STRIPE_LEN - bs)..] + buffer[..bs] == data[|data| - STRIPE_LEN..]
  {
    hide AccAfter;
    BlockFits(secret);
    StripesBeforeLast(|data|, k, bs);
    BufferHolds(buffer, bs, data, k, (bs - 1) / STRIPE_LEN);
    if bs < STRIPE_LEN {
      LastStripe(buffer, bs, data, k);
    } else {
      BufferEnd(buffer, bs, data, STRIPE_LEN * k);
    }
  }

  /** A short message is in the buffer as a whole. */
  lemma ShortIsBuffered<A>(m: Mixer<A>, secret: Bytes, acc: A, sofar: nat, buffer: Bytes, bs: nat, data: Bytes, k: nat)
    requires Consistent(m, secret, acc, sofar, buffer, bs, data, k) && |data| <= MIDSIZE_MAX
    ensures bs == |data| && buffer[..bs] == data
  {
  }
}
