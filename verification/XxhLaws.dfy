/** The steps of XXH32 and XXH64 in plain arithmetic. */
module XxhLaws {
  import opened Bits
  import opened Blocks
  import opened Xxh

  const M32: nat := 0x1_0000_0000
  const M64: nat := 0x1_0000_0000_0000_0000

  /** A 32-bit word turned left by r bits. */
  function Turn32(x: nat, r: nat): int
    requires r <= 32
  {
    x * Pow2(r) % M32 + x / Pow2(32 - r)
  }

  /** A 64-bit word turned left by r bits. */
  function Turn64(x: nat, r: nat): int
    requires r <= 64
  {
    x * Pow2(r) % M64 + x / Pow2(64 - r)
  }

  /** Four bytes, lowest first. */
  function Word32(s: Bytes): nat
    requires |s| == 4
  {
    s[0] + 0x100 * (s[1] as int) + 0x1_0000 * (s[2] as int) + 0x100_0000 * (s[3] as int)
  }

  /** Eight bytes, lowest first. */
  function Word64(s: Bytes): nat
    requires |s| == 8
  {
    Word32(s[..4]) + 0x1_0000_0000 * Word32(s[4..])
  }

  lemma Read32(s: Bytes)
    requires |s| == 4
    ensures ReadLE(s) == Word32(s)
  {
    assert s == [s[0]] + ([s[1]] + ([s[2]] + [s[3]]));
    assert s[1..][1..] == s[2..] && s[2..][1..] == s[3..] && s[3..][1..] == [];
    assert ReadLE(s[3..]) == s[3];
    assert ReadLE(s[2..]) == s[2] + 0x100 * (s[3] as int);
    assert ReadLE(s[1..]) == s[1] + 0x100 * ReadLE(s[2..]);
  }

  lemma Read64(s: Bytes)
    requires |s| == 8
    ensures ReadLE(s) == Word64(s)
  {
    Read32(s[4..]);
    assert s[1..][1..] == s[2..] && s[2..][1..] == s[3..] && s[3..][1..] == s[4..];
    assert ReadLE(s[3..]) == s[3] + 0x100 * ReadLE(s[4..]);
    assert ReadLE(s[2..]) == s[2] + 0x100 * ReadLE(s[3..]);
    assert ReadLE(s[1..]) == s[1] + 0x100 * ReadLE(s[2..]);
  }

  /** One lane takes one word. */
  lemma LaneRound(acc: nat, word: nat)
    ensures Xxh32.Round(acc, word)
         == Turn32((acc + word * 0x85EBCA77 % M32) % M32, 13) * 0x9E3779B1 % M32
    ensures Xxh64.Round(acc, word)
         == Turn64((acc + word * 0xC2B2AE3D27D4EB4F % M64) % M64, 31) * 0x9E3779B185EBCA87 % M64
  {
    hide Pow2;
  }

  /** The four lanes before the first stripe; the remainder of a negative number is not negative. */
  lemma FirstLanes(seed: nat, data: Bytes)
    ensures LanesAfter(Xxh32, seed, data, 0)
         == Lanes((seed + 0x9E3779B1 + 0x85EBCA77) % M32, (seed + 0x85EBCA77) % M32,
                  seed % M32, (seed - 0x9E3779B1) % M32)
    ensures LanesAfter(Xxh64, seed, data, 0)
         == Lanes((seed + 0x9E3779B185EBCA87 + 0xC2B2AE3D27D4EB4F) % M64, (seed + 0xC2B2AE3D27D4EB4F) % M64,
                  seed % M64, (seed - 0x9E3779B185EBCA87) % M64)
  {
  }

  /** A stripe of XXH32: its four words, in order, go to the four lanes. */
  lemma Stripe32(seed: nat, data: Bytes, k: nat)
    requires 16 * k + 16 <= |data|
    ensures var a, s := LanesAfter(Xxh32, seed, data, k), data[16 * k..16 * k + 16];
            LanesAfter(Xxh32, seed, data, k + 1)
            == Lanes(Xxh32.Round(a.v1, Word32(s[..4])), Xxh32.Round(a.v2, Word32(s[4..8])),
                     Xxh32.Round(a.v3, Word32(s[8..12])), Xxh32.Round(a.v4, Word32(s[12..])))
  {
    var s := data[16 * k..16 * k + 16];
    StripeStep(Xxh32, seed, data, k, 16 * k);
    Read32(s[..4]);
    Read32(s[4..8]);
    Read32(s[8..12]);
    Read32(s[12..]);
    hide LanesAfter;
    hide ReadLE;
    hide Word32;
  }

  /** A stripe of XXH64. */
  lemma Stripe64(seed: nat, data: Bytes, k: nat)
    requires 32 * k + 32 <= |data|
    ensures var a, s := LanesAfter(Xxh64, seed, data, k), data[32 * k..32 * k + 32];
            LanesAfter(Xxh64, seed, data, k + 1)
            == Lanes(Xxh64.Round(a.v1, Word64(s[..8])), Xxh64.Round(a.v2, Word64(s[8..16])),
                     Xxh64.Round(a.v3, Word64(s[16..24])), Xxh64.Round(a.v4, Word64(s[24..])))
  {
    hide LanesAfter;
    hide ReadLE;
    hide Word64;
    hide Variant.Round;
    var s := data[32 * k..32 * k + 32];
    StripeStep(Xxh64, seed, data, k, 32 * k);
    Read64(s[..8]);
    Read64(s[8..16]);
    Read64(s[16..24]);
    Read64(s[24..]);
  }

  lemma RotlIs(x: nat, r: nat)
    ensures r <= 32 ==> Turn32(x, r) >= 0 && Xxh32.Rotl(x, r) == Turn32(x, r)
    ensures r <= 64 ==> Turn64(x, r) >= 0 && Xxh64.Rotl(x, r) == Turn64(x, r)
  {
    hide Pow2;
  }

  /** The lanes are turned by 1, 7, 12 and 18 bits and added. */
  lemma Converge32(a: Lanes)
    ensures Converge(Xxh32, a)
         == (((Turn32(a.v1, 1) + Turn32(a.v2, 7)) % M32 + Turn32(a.v3, 12)) % M32 + Turn32(a.v4, 18)) % M32
  {
    hide Pow2;
    hide Turn32;
    RotlIs(a.v1, 1);
    RotlIs(a.v2, 7);
    RotlIs(a.v3, 12);
    RotlIs(a.v4, 18);
  }

  /** XXH64 then merges each lane. */
  lemma Converge64(a: Lanes)
    ensures var h := (((Turn64(a.v1, 1) + Turn64(a.v2, 7)) % M64 + Turn64(a.v3, 12)) % M64 + Turn64(a.v4, 18)) % M64;
            h >= 0 && Converge(Xxh64, a) == Merged(Merged(Merged(Merged(h, a.v1), a.v2), a.v3), a.v4)
  {
    hide Pow2;
    hide Turn64;
    hide Merged;
    hide Variant.MergeRound;
    RotlIs(a.v1, 1);
    RotlIs(a.v2, 7);
    RotlIs(a.v3, 12);
    RotlIs(a.v4, 18);
    MergeIs();
  }

  /** A lane is rounded from zero and mixed into the hash. */
  function Merged(h: nat, lane: nat): nat {
    (BitXor(h, Xxh64.Round(0, lane)) * 0x9E3779B185EBCA87 % M64 + 0x85EBCA77C2B2AE63) % M64
  }

  lemma MergeIs()
    ensures forall h, x :: Xxh64.MergeRound(h, x) == Merged(h, x)
  {
  }

  /** The last bytes of XXH32: words of four while there are any, then single bytes. */
  lemma Tail32(h: nat, tail: Bytes)
    ensures |tail| >= 4 ==>
              var g := (h + Word32(tail[..4]) * 0xC2B2AE3D % M32) % M32;
              var t := Turn32(g, 17) * 0x27D4EB2F % M32;
              t >= 0 && Finalize(Xxh32, h, tail) == Finalize(Xxh32, t, tail[4..])
    ensures 0 < |tail| < 4 ==>
              var g := (h + tail[0] * 0x165667B1 % M32) % M32;
              var t := Turn32(g, 11) * 0x9E3779B1 % M32;
              t >= 0 && Finalize(Xxh32, h, tail) == Finalize(Xxh32, t, tail[1..])
    ensures tail == [] ==> Finalize(Xxh32, h, tail) == Xxh32.Avalanche(h)
  {
    hide Pow2;
    hide Turn32;
    hide Word32;
    hide ReadLE;
    if |tail| >= 4 {
      var g := (h + Word32(tail[..4]) * 0xC2B2AE3D % M32) % M32;
      RotlIs(g, 17);
      Read32(tail[..4]);
    } else if |tail| > 0 {
      var g := (h + tail[0] * 0x165667B1 % M32) % M32;
      RotlIs(g, 11);
    }
  }

  /** The last bytes of XXH64: words of eight, at most one word of four, then single bytes. */
  lemma Tail64(h: nat, tail: Bytes)
    ensures |tail| >= 8 ==>
              var g := BitXor(h, Xxh64.Round(0, Word64(tail[..8])));
              var t := (Turn64(g, 27) * 0x9E3779B185EBCA87 % M64 + 0x85EBCA77C2B2AE63) % M64;
              t >= 0 && Finalize(Xxh64, h, tail) == Finalize(Xxh64, t, tail[8..])
    ensures 4 <= |tail| < 8 ==>
              var g := BitXor(h, Word32(tail[..4]) * 0x9E3779B185EBCA87 % M64);
              var t := (Turn64(g, 23) * 0xC2B2AE3D27D4EB4F % M64 + 0x165667B19E3779F9) % M64;
              t >= 0 && Finalize(Xxh64, h, tail) == Finalize(Xxh64, t, tail[4..])
    ensures 0 < |tail| < 4 ==>
              var g := BitXor(h, tail[0] * 0x27D4EB2F165667C5 % M64);
              var t := Turn64(g, 11) * 0x9E3779B185EBCA87 % M64;
              t >= 0 && Finalize(Xxh64, h, tail) == Finalize(Xxh64, t, tail[1..])
    ensures tail == [] ==> Finalize(Xxh64, h, tail) == Xxh64.Avalanche(h)
  {
    hide Pow2;
    hide Turn64;
    hide Word32;
    hide Word64;
    hide ReadLE;
    hide BitXor;
    hide Variant.Round;
    if |tail| >= 8 {
      var g := BitXor(h, Xxh64.Round(0, Word64(tail[..8])));
      RotlIs(g, 27);
      Read64(tail[..8]);
    } else if |tail| >= 4 {
      var g := BitXor(h, Word32(tail[..4]) * 0x9E3779B185EBCA87 % M64);
      RotlIs(g, 23);
      Read32(tail[..4]);
    } else if |tail| > 0 {
      var g := BitXor(h, tail[0] * 0x27D4EB2F165667C5 % M64);
      RotlIs(g, 11);
    }
  }

  /** The word mixed with its own upper bits. */
  function Folded(h: nat, r: nat): nat {
    QuotientNonNegative(h, Pow2(r));
    BitXor(h, h / Pow2(r))
  }

  lemma AvalancheIs(h: nat)
    ensures Xxh32.Avalanche(h)
         == Folded(Folded(Folded(h, 15) * 0x85EBCA77 % M32, 13) * 0xC2B2AE3D % M32, 16)
    ensures Xxh64.Avalanche(h)
         == Folded(Folded(Folded(h, 33) * 0xC2B2AE3D27D4EB4F % M64, 29) * 0x165667B19E3779F9 % M64, 32)
  {
    hide Pow2;
    hide BitXor;
  }

  /** A message shorter than one stripe starts from the seed and the fifth prime, any other from
      its lanes; the length is added and the bytes after the last whole stripe follow. */
  lemma HashReads(seed: nat, data: Bytes)
    ensures var k := |data| / 16;
            && 0 <= 16 * k <= |data|
            && Hash(Xxh32, seed, data)
               == Finalize(Xxh32, ((if |data| < 16 then (seed + 0x165667B1) % M32
                                    else Converge(Xxh32, LanesAfter(Xxh32, seed, data, k))) + |data|) % M32,
                           data[16 * k..])
    ensures var k := |data| / 32;
            && 0 <= 32 * k <= |data|
            && Hash(Xxh64, seed, data)
               == Finalize(Xxh64, ((if |data| < 32 then (seed + 0x27D4EB2F165667C5) % M64
                                    else Converge(Xxh64, LanesAfter(Xxh64, seed, data, k))) + |data|) % M64,
                           data[32 * k..])
  {
    hide Finalize;
    hide Converge;
    hide LanesAfter;
  }
}
