/** Messages cut into blocks of equal size, and hashing states folded over them. */
module Blocks {
  import opened Bits

  type Byte = b: int | 0 <= b < 256

  type Bytes = seq<Byte>

  /** The state after the first k blocks of size bytes; step also sees the block number. */
  ghost function Fold<A>(step: (A, Bytes, nat) -> A, init: A, data: Bytes, size: nat, k: nat): A
    requires size * k <= |data|
    decreases k
  {
    if k == 0 then init
    else
      MulLe(size, k - 1, k);
      step(Fold(step, init, data, size, k - 1), data[size * (k - 1)..size * k], k - 1)
  }

  /** Later bytes do not change the state after k blocks. */
  lemma {:induction false} FoldPrefix<A>(step: (A, Bytes, nat) -> A, init: A, data: Bytes, more: Bytes, size: nat,
                                         k: nat)
    requires size * k <= |data|
    ensures Fold(step, init, data + more, size, k) == Fold(step, init, data, size, k)
    decreases k
  {
    if k > 0 {
      MulLe(size, k - 1, k);
      FoldPrefix(step, init, data, more, size, k - 1);
      assert (data + more)[size * (k - 1)..size * k] == data[size * (k - 1)..size * k];
    }
  }

  /** One more block, found at position pos. */
  lemma FoldStep<A>(step: (A, Bytes, nat) -> A, init: A, data: Bytes, size: nat, k: nat, pos: nat)
    requires pos == size * k && pos + size <= |data|
    ensures size * (k + 1) == pos + size
    ensures Fold(step, init, data, size, k + 1) == step(Fold(step, init, data, size, k), data[pos..pos + size], k)
  {
    assert size * (k + 1) == size * k + size;
  }

  /** Cutting len bytes into blocks. */
  lemma Cut(len: nat, size: nat, k: nat, rest: nat)
    requires size > 0 && len == size * k + rest && rest < size
    ensures len / size == k && len % size == rest
  {
    DivModUnique(len, size, k, rest);
  }

  /** Equal stretches of two messages have equal parts. */
  lemma SubSlice(s: Bytes, t: Bytes, a: nat, b: nat, len: nat, x: nat, w: nat)
    requires a + len <= |s| && b + len <= |t| && s[a..a + len] == t[b..b + len] && x + w <= len
    ensures s[a + x..a + x + w] == t[b + x..b + x + w]
  {
    SliceOfSlice(s, a, len, x, w);
    SliceOfSlice(t, b, len, x, w);
  }

  lemma SliceOfSlice(s: Bytes, a: nat, len: nat, x: nat, w: nat)
    requires a + len <= |s| && x + w <= len
    ensures s[a..a + len][x..x + w] == s[a + x..a + x + w]
  {
    var part := s[a..a + len];
    var left, right := part[x..x + w], s[a + x..a + x + w];
    forall i | 0 <= i < w
      ensures left[i] == right[i]
    {
      assert left[i] == part[x + i];
    }
  }

  /** memcpy into a buffer. */
  method Copy(mem: array<Byte>, at: nat, input: Bytes)
    requires at + |input| <= mem.Length
    modifies mem
    ensures mem[..] == old(mem[..])[..at] + input + old(mem[..])[at + |input|..]
  {
    for i := 0 to |input|
      invariant forall j :: 0 <= j < mem.Length ==> mem[j] == if at <= j < at + i then input[j - at] else old(mem[j])
    {
      mem[at + i] := input[i];
    }
  }
}
