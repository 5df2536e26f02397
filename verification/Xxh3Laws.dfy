/** Where XXH3 reads the secret and the message, in plain offsets. */
module Xxh3Laws {
  import opened Bits
  import opened Blocks
  import opened Xxh3

  /** Stripe k is accumulated with eight more secret bytes skipped than its predecessor in the
      block; the last stripe of a block is followed by a scramble with the last 64 bytes. */
  lemma StripeReads<A>(m: Mixer<A>, secret: Bytes, data: Bytes, k: nat)
    requires |secret| >= 136 && 64 * k + 64 <= |data|
    ensures var nb := (|secret| - 64) / 8;
            && 8 * (k % nb) + 64 <= |secret|
            && var mixed := m.accumulate512(AccAfter(m, secret, data, k), data[64 * k..64 * k + 64],
                                            secret[8 * (k % nb)..8 * (k % nb) + 64]);
               AccAfter(m, secret, data, k + 1)
               == if (k + 1) % nb == 0 then m.scrambleAcc(mixed, secret[|secret| - 64..]) else mixed
  {
    StripeStep(m, secret, data, k, 64 * k);
    hide AccAfter;
    hide Step;
    StepReads(m, secret, AccAfter(m, secret, data, k), data[64 * k..64 * k + 64], k);
  }

  lemma StepReads<A>(m: Mixer<A>, secret: Bytes, a: A, stripe: Bytes, i: nat)
    requires |secret| >= 136
    ensures var nb := (|secret| - 64) / 8;
            && nb >= 9 && 8 * (i % nb) + 64 <= |secret|
            && var mixed := m.accumulate512(a, stripe, secret[8 * (i % nb)..8 * (i % nb) + 64]);
               Step(m, secret, a, stripe, i)
               == if (i + 1) % nb == 0 then m.scrambleAcc(mixed, secret[|secret| - 64..]) else mixed
  {
    BlockFits(secret);
    assert SecretAt(secret, |secret| - 64) == secret[|secret| - 64..];
  }

  lemma StartsWithInit<A>(m: Mixer<A>, secret: Bytes, data: Bytes)
    ensures AccAfter(m, secret, data, 0) == m.init
  {
  }

  /** The last 64 bytes are accumulated with the 64 secret bytes that end 7 before its end. */
  lemma LastReads<A>(m: Mixer<A>, secret: Bytes, data: Bytes)
    requires |secret| >= 136 && |data| > 64
    ensures 64 * ((|data| - 1) / 64) <= |data|
    ensures LongAcc(m, secret, data)
         == m.accumulate512(AccAfter(m, secret, data, (|data| - 1) / 64), data[|data| - 64..],
                            secret[|secret| - 71..|secret| - 7])
  {
  }

  /** Up to 240 bytes go to the short function; longer messages to the merge, with the secret
      from byte 11 on and the length. */
  lemma HashReads<A>(m: Mixer<A>, secret: Bytes, shortSecret: Bytes, seed: nat, data: Bytes)
    requires |secret| >= 136
    ensures |data| <= 240 ==> Hash(m, secret, shortSecret, seed, data) == m.short(data, shortSecret, seed)
    ensures |data| > 240 ==>
              Hash(m, secret, shortSecret, seed, data) == m.mergeAccs(LongAcc(m, secret, data), secret[11..], |data|)
  {
  }

  /** 300 bytes under a secret of 192. */
  lemma ThreeHundred<A>(m: Mixer<A>, secret: Bytes, shortSecret: Bytes, seed: nat, data: Bytes)
    requires |secret| == 192 && |data| == 300
    ensures var a1 := m.accumulate512(m.init, data[0..64], secret[0..64]);
            var a2 := m.accumulate512(a1, data[64..128], secret[8..72]);
            var a3 := m.accumulate512(a2, data[128..192], secret[16..80]);
            var a4 := m.accumulate512(a3, data[192..256], secret[24..88]);
            var last := m.accumulate512(a4, data[236..300], secret[121..185]);
            Hash(m, secret, shortSecret, seed, data) == m.mergeAccs(last, secret[11..192], 300)
  {
    StartsWithInit(m, secret, data);
    StripeReads(m, secret, data, 0);
    StripeReads(m, secret, data, 1);
    StripeReads(m, secret, data, 2);
    StripeReads(m, secret, data, 3);
    LastReads(m, secret, data);
    HashReads(m, secret, shortSecret, seed, data);
    hide AccAfter;
    hide LongAcc;
    hide Hash;
    assert data[236..] == data[236..300] && secret[11..] == secret[11..192];
  }

  /** The end of the first block under a secret of 192. */
  lemma FirstBlockEnds<A>(m: Mixer<A>, secret: Bytes, data: Bytes)
    requires |secret| == 192 && |data| > 64 * 17
    ensures var a15 := AccAfter(m, secret, data, 15);
            var a16 := m.scrambleAcc(m.accumulate512(a15, data[960..1024], secret[120..184]), secret[128..192]);
            && AccAfter(m, secret, data, 16) == a16
            && AccAfter(m, secret, data, 17) == m.accumulate512(a16, data[1024..1088], secret[0..64])
  {
    StripeReads(m, secret, data, 15);
    StripeReads(m, secret, data, 16);
    hide AccAfter;
    assert secret[128..] == secret[128..192];
  }
}
