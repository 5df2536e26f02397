/** Modulo reduction through an invariant divider. */
module Reduction {
  import opened Bits
  import opened WideDivision
  import opened UnsignedDivision
  import opened Wrappers

  /** FastModulo and BranchlessFastModulo for hashes of w bits: the divider made for the
      bucket count cut to w bits, and the count itself, which is 64 bits wide. */
  datatype FastModulo = FastModulo(w: nat, branchfree: bool, magicDiv: Divider, n: nat) {

    ghost predicate Built(d: nat) {
      && Width(w) && n < B64 && d > 0 && IsCut(n, w, d)
      && if branchfree then BranchfreeDividerFor(w, d, magicDiv) else DividerFor(w, d, magicDiv)
    }

    /** The count fits the hash type. */
    ghost predicate Valid() {
      Built(n)
    }

    /** hash - (hash / magic_div) * N in 64-bit arithmetic, returned as a hash. */
    function Apply(hash: nat): nat
      requires Width(w) && hash < Pow2(w) && magicDiv.magic < Pow2(w)
    {
      var div := if branchfree then BranchfreeDo(w, magicDiv, hash) else Do(w, magicDiv, hash);
      (hash - div * n) % B64 % Pow2(w)
    }

    lemma DividesByCut(hash: nat, d: nat)
      requires Built(d) && hash < Pow2(w)
      ensures magicDiv.magic < Pow2(w)
      ensures Apply(hash) == (hash - hash / d * n) % B64 % Pow2(w)
    {
      hide SmallMagic;
      hide LongMagic;
      hide Pow2;
      hide IsCut;
      hide Do;
      hide BranchfreeDo;
      MagicInWord(w, d, magicDiv);
      if branchfree {
        BranchfreeDoIsDivision(w, d, magicDiv, hash);
      } else {
        DoIsDivision(w, d, magicDiv, hash);
      }
    }

    /** The reduction is the remainder by the cut count d, so it is the remainder by the count
        for all hashes when the count fits the hash type, and otherwise exactly for the
        hashes below the cut count. */
    lemma IsModuloIff(hash: nat, d: nat)
      requires Built(d) && hash < Pow2(w)
      ensures magicDiv.magic < Pow2(w)
      ensures Apply(hash) == hash % d && n > 0
      ensures Apply(hash) == hash % n <==> n < Pow2(w) || hash < d
    {
      DividesByCut(hash, d);
      hide Apply;
      hide SmallMagic;
      hide LongMagic;
      Pow2Values();
      hide Pow2;
      RemainderByCut(hash, n, d, Pow2(w), if w == 32 then Pow2(w) else 1);
      CutRemainder(hash, n, d, Pow2(w));
    }

    /** The reduction is the remainder, so it lands in the directory. */
    lemma IsModulo(hash: nat)
      requires Valid() && hash < Pow2(w)
      ensures magicDiv.magic < Pow2(w)
      ensures Apply(hash) == hash % n && Apply(hash) < n
    {
      IsModuloIff(hash, n);
    }
  }

  /** The low w bits of n are d. */
  ghost predicate IsCut(n: nat, w: nat, d: nat) {
    d == n % Pow2(w)
  }

  lemma RemainderByCut(hash: nat, n: nat, d: nat, p: nat, k: nat)
    requires p > 0 && k > 0 && d == n % p > 0
    ensures p * k > 0 && (hash - hash / d * n) % (p * k) % p == hash % d
  {
    MulAtLeast(p, k);
    var a, q, r := n / p, hash / d, hash % d;
    var x := hash - q * n;
    var t := x / (p * k);
    CutForm(hash, n, d, p);
    assert x == (p * k) * t + x % (p * k);
    assert x % (p * k) == p * (0 - a * q - k * t) + r by {
      Regroup(p, a, q, k, t);
    }
    DivModUnique(x % (p * k), p, 0 - a * q - k * t, r);
  }

  /** Subtracting q times the count differs from the remainder by a multiple of p. */
  lemma CutForm(hash: nat, n: nat, d: nat, p: nat)
    requires p > 0 && d == n % p > 0
    ensures hash - hash / d * n == hash % d - (hash / d) * (p * (n / p))
  {
    var a, q := n / p, hash / d;
    assert n == p * a + d && hash == d * q + hash % d;
    Distribute(q, p * a, d);
  }

  lemma Distribute(q: int, x: int, y: int)
    ensures q * (x + y) == q * x + y * q
  {
  }

  lemma Regroup(p: int, a: int, q: int, k: int, t: int)
    ensures p * (0 - a * q - k * t) == 0 - q * (p * a) - (p * k) * t
  {
  }

  /** Remainders by n and by n cut to p agree below p where nothing was cut or divided. */
  lemma CutRemainder(hash: nat, n: nat, d: nat, p: nat)
    requires hash < p && d == n % p > 0
    ensures n > 0 && (hash % n == hash % d <==> n < p || hash < d)
  {
    if n < p {
      DivModUnique(n, p, 0, n);
    } else {
      DivModUnique(hash, n, 0, hash);
      if hash < d {
        DivModUnique(hash, d, 0, hash);
      }
    }
  }

  lemma MagicInWord(w: nat, d: nat, den: Divider)
    requires DividerFor(w, d, den) || BranchfreeDividerFor(w, d, den)
    ensures den.magic < Pow2(w)
  {
  }

  /** The constructors: no divider exists for a count that is cut to zero, and the
      branch-free one refuses a count that is cut to one. */
  method NewFastModulo(w: nat, numBuckets: nat, branchfree: bool) returns (result: Option<FastModulo>, ghost cut: nat)
    requires Width(w) && numBuckets < B64
    ensures cut == numBuckets % Pow2(w)
    ensures result.None? <==> cut == 0 || (branchfree && cut == 1)
    ensures result.Some? ==> result.value.Built(cut)
    ensures result.Some? ==> result.value.w == w && result.value.n == numBuckets
    ensures result.Some? ==> result.value.branchfree == branchfree
  {
    hide SmallMagic;
    hide LongMagic;
    hide Pow2;
    var d, den := numBuckets % Pow2(w), None;
    cut := d;
    if branchfree {
      den := BranchfreeGen(w, d);
    } else {
      den := Gen(w, d);
    }
    if den.None? {
      return None, cut;
    }
    result := Some(FastModulo(w, branchfree, den.value, numBuckets));
  }

  /** A 32-bit hash and 2^32 + 2 buckets: the divider is made for 2, and hash 3 goes to
      bucket 1 instead of 3. */
  method CutCountFails() returns (fastmod: FastModulo, r: nat)
    ensures fastmod.w == 32 && fastmod.n == B32 + 2 && fastmod.Built(2)
    ensures fastmod.magicDiv.magic < Pow2(32) && 3 < Pow2(32)
    ensures r == fastmod.Apply(3) == 1 && 3 % fastmod.n == 3
  {
    Pow2Values();
    hide Pow2;
    DivModUnique(B32 + 2, B32, 1, 2);
    var made, cut := NewFastModulo(32, B32 + 2, false);
    fastmod := made.value;
    fastmod.IsModuloIff(3, 2);
    hide FastModulo.Apply;
    r := fastmod.Apply(3);
  }
}
