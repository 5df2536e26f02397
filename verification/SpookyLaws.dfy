/** What SpookyHash V2 mixes, in plain numbers. */
module SpookyLaws {
  import opened Bits
  import opened Blocks
  import opened Spooky

  /** The twelve initial words. */
  lemma InitialWords(m: Mixer, seed1: nat, seed2: nat, data: Bytes)
    ensures var c := 16045690984833335023;
            StateAfter(m, seed1, seed2, data, 0)
            == [seed1, seed2, c, seed1, seed2, c, seed1, seed2, c, seed1, seed2, c]
  {
  }

  lemma BlockReads(m: Mixer, seed1: nat, seed2: nat, data: Bytes, k: nat)
    requires 96 * k + 96 <= |data|
    ensures StateAfter(m, seed1, seed2, data, k + 1)
         == m.mix(StateAfter(m, seed1, seed2, data, k), data[96 * k..96 * k + 96])
  {
    BlockStep(m, seed1, seed2, data, k, 96 * k);
  }

  /** The tail is followed by zeros, and byte 95 holds its length. */
  lemma PaddedBytes(tail: Bytes)
    requires |tail| < 96
    ensures |Padded(tail)| == 96 && Padded(tail)[..|tail|] == tail && Padded(tail)[95] == |tail|
    ensures forall i :: |tail| <= i < 95 ==> Padded(tail)[i] == 0
  {
  }

  /** Below 192 bytes the short function hashes; from there on the first two words that End
      leaves, after all whole blocks and the padded rest. */
  lemma HashReads(m: Mixer, seed1: nat, seed2: nat, data: Bytes)
    requires m.Ok()
    ensures |data| < 192 ==> Hash(m, seed1, seed2, data) == m.short(data, seed1, seed2)
    ensures |data| >= 192 ==>
              var k := |data| / 96;
              && 0 <= 96 * k <= |data| && |data| - 96 * k < 96
              && var h := m.end(StateAfter(m, seed1, seed2, data, k), Padded(data[96 * k..]));
                 |h| == 12 && Hash(m, seed1, seed2, data) == (h[0], h[1])
  {
    if |data| >= 192 {
      StateLength(m, seed1, seed2, data, |data| / 96);
    }
  }

  /** 250 bytes: two blocks, and 58 bytes that are padded. */
  lemma TwoHundredFifty(m: Mixer, seed1: nat, seed2: nat, data: Bytes)
    requires m.Ok() && |data| == 250
    ensures var c := 0xdeadbeefdeadbeef;
            var h0 := [seed1, seed2, c, seed1, seed2, c, seed1, seed2, c, seed1, seed2, c];
            var h := m.end(m.mix(m.mix(h0, data[0..96]), data[96..192]), Padded(data[192..]));
            |h| == 12 && Hash(m, seed1, seed2, data) == (h[0], h[1])
  {
    InitialWords(m, seed1, seed2, data);
    BlockReads(m, seed1, seed2, data, 0);
    BlockReads(m, seed1, seed2, data, 1);
    HashReads(m, seed1, seed2, data);
    hide StateAfter;
    hide Hash;
  }
}
