/**
 From a key set to generated C code: the key statistics, the table compaction and the
 emitted hash function, which must agree with the in-memory hash.
 */
module Emit {
  import opened Bits
  import opened Wrappers
  import opened Mph

  const KEYMAXCHAR: nat := 255
  const KEYMAXLEN: nat := 4096

  // ---------------------------------------------------------------- key statistics

  /** A plain char is signed. */
  function SignedChar(c: nat): int {
    if c < 128 then c else c - 256
  }

  datatype Stats = Stats(minlen: nat, maxlen: nat, minchar: int, maxchar: int)

  /** Every key length and every char value lies between the bounds. */
  ghost predicate Bounds(s: Stats, keys: seq<Key>) {
    && s.minchar <= KEYMAXCHAR && s.maxchar >= 0
    && forall e :: 0 <= e < |keys| ==> s.minlen <= |keys[e]| <= s.maxlen && KeyWithin(s, keys[e])
  }

  ghost predicate KeyWithin(s: Stats, key: Key) {
    forall k :: 0 <= k < |key| ==> s.minchar <= SignedChar(key[k]) <= s.maxchar
  }

  /** Some key contains this char. */
  ghost predicate SomeChar(keys: seq<Key>, value: int) {
    exists e, k :: 0 <= e < |keys| && 0 <= k < |keys[e]| && SignedChar(keys[e][k]) == value
  }

  /** Bounds beyond the initial ones are met by some key. */
  ghost predicate Tight(s: Stats, keys: seq<Key>) {
    && (s.minchar == KEYMAXCHAR || SomeChar(keys, s.minchar))
    && (s.maxchar == 0 || SomeChar(keys, s.maxchar))
    && (s.minlen == KEYMAXLEN || exists e :: 0 <= e < |keys| && |keys[e]| == s.minlen)
    && (s.maxlen == 0 || exists e :: 0 <= e < |keys| && |keys[e]| == s.maxlen)
  }

  function Max(a: int, b: int): int {
    if a > b then a else b
  }

  function Min(a: int, b: int): int {
    if a < b then a else b
  }

  /** savekey: folds one more key into the statistics. */
  method SaveKey(s: Stats, key: Key, ghost before: seq<Key>) returns (s': Stats)
    requires Bounds(s, before) && Tight(s, before)
    ensures Bounds(s', before + [key]) && Tight(s', before + [key]) && s'.minlen <= s.minlen
  {
    var maxchar, minchar := s.maxchar, s.minchar;
    ghost var all, last := before + [key], |before|;
    assert all[last] == key && forall e :: 0 <= e < last ==> all[e] == before[e];
    for k := 0 to |key|
      invariant minchar <= s.minchar && maxchar >= s.maxchar
      invariant forall i :: 0 <= i < k ==> minchar <= SignedChar(key[i]) <= maxchar
      invariant minchar == s.minchar || exists i :: 0 <= i < k && SignedChar(key[i]) == minchar
      invariant maxchar == s.maxchar || exists i :: 0 <= i < k && SignedChar(key[i]) == maxchar
    {
      maxchar := Max(SignedChar(key[k]), maxchar);
      minchar := Min(SignedChar(key[k]), minchar);
    }
    s' := Stats(Min(|key|, s.minlen), Max(|key|, s.maxlen), minchar, maxchar);
    assert minchar != s.minchar ==> exists i :: 0 <= i < |all[last]| && SignedChar(all[last][i]) == minchar;
    assert maxchar != s.maxchar ==> exists i :: 0 <= i < |all[last]| && SignedChar(all[last][i]) == maxchar;
  }

  /** keynew: the statistics of all keys; a key has fewer than KEYMAXLEN bytes. */
  method KeyNew(keys: seq<Key>) returns (s: Stats)
    ensures Bounds(s, keys) && Tight(s, keys)
    ensures s.minlen <= 4096 && (s.minlen < 4096 ==> exists e :: 0 <= e < |keys| && |keys[e]| == s.minlen)
    ensures s.maxlen > 0 ==> exists e :: 0 <= e < |keys| && |keys[e]| == s.maxlen
    ensures s.minchar <= 255 && (s.minchar < 255 ==> SomeChar(keys, s.minchar))
    ensures s.maxchar >= 0 && (s.maxchar > 0 ==> SomeChar(keys, s.maxchar))
  {
    s := Stats(KEYMAXLEN, 0, KEYMAXCHAR, 0);
    for e := 0 to |keys|
      invariant Bounds(s, keys[..e]) && Tight(s, keys[..e]) && s.minlen <= KEYMAXLEN
    {
      s := SaveKey(s, keys[e], keys[..e]);
      assert keys[..e + 1] == keys[..e] + [keys[e]];
    }
    assert keys[..|keys|] == keys;
  }

  /** The least char is negative exactly when some key has a byte above 127. */
  lemma NegativeMinChar(s: Stats, keys: seq<Key>)
    requires Bounds(s, keys) && Tight(s, keys) && forall e :: 0 <= e < |keys| ==> Bytes(keys[e])
    ensures s.minchar < 0 <==> exists e, k :: 0 <= e < |keys| && 0 <= k < |keys[e]| && keys[e][k] > 127
  {
    if s.minchar < 0 {
      var e, k :| 0 <= e < |keys| && 0 <= k < |keys[e]| && SignedChar(keys[e][k]) == s.minchar;
      assert keys[e][k] > 127;
    }
  }

  // ---------------------------------------------------------------- the emitter

  datatype Header = Header(d: nat, n: nat, m: nat, maxlen: nat, minklen: nat, maxklen: nat,
                           minchar: int, maxchar: int, loop: bool)

  datatype Options = Options(compact: bool, safe: bool, len: bool)

  /** The generated function: its tables and the constants printed into its text. */
  datatype Code = Code(d: nat, n: nat, m: nat, loop: bool, g: seq<int>, tables: seq<seq<int>>,
                       cursor: bool, start: int, step: int, wrapAt: Option<int>,
                       lenRange: Option<(int, int)>, charRange: Option<(int, int)>,
                       lastAt: Option<int>, atLeast: Option<int>)

  function AlphaSize(h: Header, o: Options): int {
    if o.compact then h.maxchar - h.minchar + 1 else 256
  }

  function Lo(h: Header, o: Options): int {
    if o.compact then h.minchar else 0
  }

  function Hi(h: Header, o: Options): int {
    if o.compact then h.maxchar else 255
  }

  /** A compacted table: row r of the output is columns lo..hi of row r of the input. */
  ghost predicate Compacted(full: seq<int>, out: seq<int>, rows: nat, lo: int, hi: int)
    requires |full| == rows * ALPHASZ
  {
    0 <= lo <= hi < ALPHASZ ==>
      && |out| == rows * (hi - lo + 1)
      && forall r: nat, c: nat :: r < rows && lo <= c <= hi ==> SameEntry(full, out, r, c, lo, hi)
  }

  ghost predicate SameEntry(full: seq<int>, out: seq<int>, r: nat, c: nat, lo: int, hi: int)
    requires 0 <= lo <= c <= hi < ALPHASZ
  {
    && ALPHASZ * r + c < |full| && 0 <= (hi - lo + 1) * r + (c - lo) < |out|
    && out[(hi - lo + 1) * r + (c - lo)] == full[ALPHASZ * r + c]
  }

  /** Entries already copied stay in place as the output grows. */
  ghost predicate RowsDone(full: seq<int>, out: seq<int>, i: nat, lo: int, hi: int) {
    0 <= lo <= hi < ALPHASZ ==> forall r: nat, c: nat :: r < i && lo <= c <= hi ==> SameEntry(full, out, r, c, lo, hi)
  }

  /** The first j columns of row i are copied as well. */
  ghost predicate RowPart(full: seq<int>, out: seq<int>, i: nat, j: int, lo: int, hi: int) {
    0 <= lo <= hi < ALPHASZ ==>
      && |out| == (hi - lo + 1) * i + Done(j, lo, hi)
      && forall c: nat :: lo <= c <= hi && c < j ==> SameEntry(full, out, i, c, lo, hi)
  }

  /** How many of the first j columns are kept. */
  function Done(j: int, lo: int, hi: int): int {
    if j <= lo then 0 else if j <= hi then j - lo else hi - lo + 1
  }

  lemma Grow(full: seq<int>, out: seq<int>, i: nat, j: nat, lo: int, hi: int, v: int)
    requires RowsDone(full, out, i, lo, hi) && RowPart(full, out, i, j, lo, hi) && j < 256
    requires ALPHASZ * i + j < |full| && full[ALPHASZ * i + j] == v
    ensures lo <= j <= hi ==> RowsDone(full, out + [v], i, lo, hi) && RowPart(full, out + [v], i, j + 1, lo, hi)
    ensures !(lo <= j <= hi) ==> RowPart(full, out, i, j + 1, lo, hi)
  {
    if 0 <= lo <= j <= hi < ALPHASZ {
      forall c: nat | lo <= c <= hi && c < j + 1
        ensures SameEntry(full, out + [v], i, c, lo, hi)
      {
        assert c < j ==> SameEntry(full, out, i, c, lo, hi);
      }
      forall r: nat, c: nat | r < i && lo <= c <= hi
        ensures SameEntry(full, out + [v], r, c, lo, hi)
      {
        assert SameEntry(full, out, r, c, lo, hi);
      }
    }
  }

  lemma NextRow(full: seq<int>, out: seq<int>, i: nat, lo: int, hi: int)
    requires RowsDone(full, out, i, lo, hi) && RowPart(full, out, i, 256, lo, hi)
    ensures RowsDone(full, out, i + 1, lo, hi) && RowPart(full, out, i + 1, 0, lo, hi)
  {
    var width := hi - lo + 1;
    assert width * (i + 1) == width * i + width;
  }

  lemma RowFits(rows: nat, i: nat, j: nat)
    requires i < rows && j < ALPHASZ
    ensures ALPHASZ * i + j < rows * ALPHASZ && (ALPHASZ * i + j) % ALPHASZ == j
  {
  }

  /** emitT: copies one table from the input, leaving out unused columns. */
  method EmitT(h: Header, o: Options, input: seq<int>, at: nat) returns (out: seq<int>, next: nat)
    requires at + h.maxlen * ALPHASZ <= |input|
    ensures next == at + h.maxlen * ALPHASZ
    ensures Compacted(input[at..next], out, h.maxlen, Max(Lo(h, o), 0), Hi(h, o))
  {
    ghost var lo, hi := Max(Lo(h, o), 0), Hi(h, o);
    ghost var full := input[at..at + h.maxlen * ALPHASZ];
    hide SameEntry;
    out, next := [], at;
    for i := 0 to h.maxlen
      invariant next == at + ALPHASZ * i
      invariant RowsDone(full, out, i, lo, hi) && RowPart(full, out, i, 0, lo, hi)
    {
      for j := 0 to 256
        invariant next == at + ALPHASZ * i + j
        invariant RowsDone(full, out, i, lo, hi) && RowPart(full, out, i, j, lo, hi)
      {
        RowFits(h.maxlen, i, j);
        var v := input[next];
        next := next + 1;
        Grow(full, out, i, j, lo, hi, v);
        if o.compact && (j < h.minchar || j > h.maxchar) {
          continue;
        }
        out := out + [v];
      }
      NextRow(full, out, i, lo, hi);
    }
    MulComm(hi - lo + 1, h.maxlen);
  }

  /** emithash: the constants and optional checks of the generated text. */
  function EmitHash(h: Header, o: Options, g: seq<int>, tables: seq<seq<int>>): Code {
    var start := if o.compact then 0 - h.minchar else 0;
    Code(h.d, h.n, h.m, h.loop, g, tables, h.maxlen > 1, start, AlphaSize(h, o),
         if h.maxlen < h.maxklen then
           Some(if o.compact then h.maxlen * AlphaSize(h, o) - h.minchar else h.maxlen * 256)
         else None,
         if o.safe && o.len then Some((h.minklen, h.maxklen)) else None,
         if o.safe && o.compact then Some((h.minchar, h.maxchar)) else None,
         if o.safe && !o.len then Some(h.maxklen - 1) else None,
         if o.safe && !o.len then Some(h.minklen) else None)
  }

  /** The integers mph writes after the header: node values, then whole tables. */
  function Body(p: Params, vals: seq<int>): seq<int>
    requires ParamsOk(p)
  {
    vals + p.tables[0] + p.tables[1] + if p.d == 3 then p.tables[2] else []
  }

  /** The header describes these parameters and values. */
  ghost predicate Describes(h: Header, p: Params, vals: seq<int>) {
    && ParamsOk(p) && h.d == p.d && h.n == p.n && h.m > 0 && h.maxlen == p.maxlen && h.loop == p.loop
    && |vals| == p.n && h.maxlen <= h.maxklen && (h.maxlen == 0 ==> h.maxklen == 0)
  }

  /** The generated tables, one per edge end. */
  ghost predicate TablesFor(h: Header, o: Options, p: Params, tables: seq<seq<int>>)
    requires ParamsOk(p)
  {
    && |tables| == p.d
    && forall t :: 0 <= t < p.d ==> Compacted(p.tables[t], tables[t], p.maxlen, Max(Lo(h, o), 0), Hi(h, o))
  }

  /** emitc after the header: reads the values and tables and prints the function. */
  method EmitC(h: Header, o: Options, input: seq<int>, ghost p: Params, ghost vals: seq<int>) returns (code: Code)
    requires Describes(h, p, vals) && input == Body(p, vals)
    ensures code == EmitHash(h, o, vals, code.tables) && TablesFor(h, o, p, code.tables)
  {
    hide Compacted;
    BodyParts(p, vals);
    var g := input[..h.n];
    var t0, at0 := EmitT(h, o, input, h.n);
    var t1, at1 := EmitT(h, o, input, at0);
    var tables := [t0, t1];
    if h.d == 3 {
      var t2, at2 := EmitT(h, o, input, at1);
      tables := tables + [t2];
    }
    code := EmitHash(h, o, g, tables);
  }

  lemma BodyParts(p: Params, vals: seq<int>)
    requires ParamsOk(p) && |vals| == p.n
    ensures var size := p.maxlen * ALPHASZ; var body := Body(p, vals);
            && |body| == p.n + p.d * size && body[..p.n] == vals
            && body[p.n..p.n + size] == p.tables[0]
            && body[p.n + size..p.n + size + size] == p.tables[1]
            && (p.d == 3 ==> body[p.n + size + size..p.n + size + size + size] == p.tables[2])
  {
  }

  // ---------------------------------------------------------------- the generated function

  /** The strings the generated function is made for. */
  ghost predicate InDomain(h: Header, o: Options, key: Key) {
    && h.minklen <= |key| <= h.maxklen
    && forall k :: 0 <= k < |key| ==> Lo(h, o) <= key[k] <= Hi(h, o)
  }

  /** The compacted entry for the k-th byte of a key. */
  lemma EntryKept(h: Header, o: Options, p: Params, tables: seq<seq<int>>, t: nat, k: nat, c: nat)
    requires ParamsOk(p) && TablesFor(h, o, p, tables) && t < p.d && p.maxlen > 0
    requires 0 <= Lo(h, o) <= c <= Hi(h, o) < ALPHASZ
    ensures AlphaSize(h, o) * (k % p.maxlen) - Lo(h, o) + c < |tables[t]|
    ensures 0 <= AlphaSize(h, o) * (k % p.maxlen) - Lo(h, o) + c
    ensures Cell(p.maxlen, k, c) < |p.tables[t]|
    ensures tables[t][AlphaSize(h, o) * (k % p.maxlen) - Lo(h, o) + c] == p.tables[t][Cell(p.maxlen, k, c)]
  {
    assert SameEntry(p.tables[t], tables[t], k % p.maxlen, c, Lo(h, o), Hi(h, o));
  }

  /** The table cursor before the k-th byte. */
  ghost predicate CursorAt(h: Header, o: Options, i: int, k: nat) {
    if h.maxlen <= 1 then i == 0 - Lo(h, o)
    else if h.maxlen < h.maxklen then i == AlphaSize(h, o) * (k % h.maxlen) - Lo(h, o)
    else i == AlphaSize(h, o) * k - Lo(h, o)
  }

  /** Without the wrap rule no key is long enough to need it. */
  lemma CursorReads(h: Header, o: Options, i: int, k: nat)
    requires CursorAt(h, o, i, k) && 0 < h.maxlen <= h.maxklen && k < h.maxklen
    ensures i == AlphaSize(h, o) * (k % h.maxlen) - Lo(h, o)
  {
    if h.maxlen == h.maxklen {
      DivModUnique(k, h.maxlen, 0, k);
    }
  }

  lemma CursorMoves(h: Header, o: Options, i: int, k: nat)
    requires CursorAt(h, o, i, k) && AlphaSize(h, o) > 0 && h.maxlen > 1
    ensures var a, lo, j := AlphaSize(h, o), Lo(h, o), i + AlphaSize(h, o);
            CursorAt(h, o, if h.maxlen < h.maxklen && j >= h.maxlen * a - lo then 0 - lo else j, k + 1)
  {
    var a, r := AlphaSize(h, o), k % h.maxlen;
    ModSuccessor(k, h.maxlen);
    if h.maxlen < h.maxklen {
      assert a * (r + 1) == a * r + a;
      MulComm(a, h.maxlen);
      if r + 1 < h.maxlen {
        MulLe(a, r + 2, h.maxlen);
        assert a * (r + 2) == a * (r + 1) + a;
      }
    } else {
      assert a * (k + 1) == a * k + a;
    }
  }

  /** The running sum of one table after k bytes, an unsigned int. */
  ghost function Running(p: Params, t: nat, key: Key, k: nat): nat
    requires ParamsOk(p) && t < p.d && Bytes(key) && k <= |key| && (p.maxlen == 0 ==> k == 0)
  {
    TableSum(p.tables[t], p.maxlen, key[..k]) % UINT
  }

  /** Adding the compacted entry steps the running sum. */
  lemma RunningStep(h: Header, o: Options, p: Params, tables: seq<seq<int>>, t: nat, key: Key, k: nat, i: int)
    requires ParamsOk(p) && TablesFor(h, o, p, tables) && t < p.d && Bytes(key) && k < |key|
    requires 0 < p.maxlen == h.maxlen <= h.maxklen && k < h.maxklen && CursorAt(h, o, i, k)
    requires 0 <= Lo(h, o) <= key[k] <= Hi(h, o) < ALPHASZ
    ensures 0 <= i + key[k] < |tables[t]|
    ensures (Running(p, t, key, k) + tables[t][i + key[k]]) % UINT == Running(p, t, key, k + 1)
  {
    CursorReads(h, o, i, k);
    EntryKept(h, o, p, tables, t, k, key[k]);
    TableSumStep(p.tables[t], p.maxlen, key, k, ALPHASZ * (k % p.maxlen));
  }

  lemma SumOfTwo(vals: seq<int>, a: nat, b: nat)
    requires a < |vals| && b < |vals|
    ensures ValueSum(vals, [a, b]) == vals[a] + vals[b]
  {
    assert [a, b][..1] == [a] && [a][..0] == [];
    assert ValueSum(vals, [a]) == ValueSum(vals, []) + vals[a];
  }

  lemma SumOfThree(vals: seq<int>, a: nat, b: nat, c: nat)
    requires a < |vals| && b < |vals| && c < |vals|
    ensures ValueSum(vals, [a, b, c]) == vals[a] + vals[b] + vals[c]
  {
    assert [a, b, c][..2] == [a, b];
    SumOfTwo(vals, a, b);
  }

  /** The tail of the generated function: nodes from the running sums, then the value. */
  method Combine(code: Code, s0: nat, s1: nat, s2: nat, ghost p: Params, ghost key: Key) returns (r: int)
    requires ParamsOk(p) && KeyOk(p, key) && code.d == p.d && code.n == p.n && code.loop == p.loop && code.m > 0
    requires |code.g| == p.n && s0 == Running(p, 0, key, |key|) && s1 == Running(p, 1, key, |key|)
    requires p.d == 3 ==> s2 == Running(p, 2, key, |key|)
    ensures r == Hash(p, code.m, code.g, key)
  {
    assert key[..|key|] == key;
    hide TableSum;
    var f0, f1, f2 := s0 % code.n, s1 % code.n, 0;
    if code.d == 3 {
      f2 := s2 % code.n;
    }
    if code.loop {
      if f1 == f0 {
        f1 := Step(f1, code.n);
      }
      if code.d == 3 {
        if f2 == f0 {
          f2 := Step(f2, code.n);
        }
        if f1 == f2 {
          f2 := Step(f2, code.n);
          if f2 == f0 {
            f2 := Step(f2, code.n);
          }
        }
      }
    }
    if code.d == 2 {
      SumOfTwo(code.g, f0, f1);
      assert Nodes(p, key) == [f0, f1];
      r := CRem(code.g[f0] + code.g[f1], code.m);
    } else {
      SumOfThree(code.g, f0, f1, f2);
      assert Nodes(p, key) == [f0, f1, f2];
      r := CRem(code.g[f0] + code.g[f1] + code.g[f2], code.m);
    }
  }

  /** What holds of the bytes read so far when the function has not returned. */
  ghost predicate ReadSoFar(h: Header, o: Options, key: Key, k: nat) {
    && k <= |key| && k <= h.maxklen
    && ((o.len || !o.safe) ==> h.minklen <= |key| <= h.maxklen)
    && forall j :: 0 <= j < k ==> Lo(h, o) <= key[j] <= Hi(h, o)
  }

  /** The generated function agrees with the in-memory hash on its whole domain, and in
      safe mode returns -1 for every other string. len is the caller's strlen. */
  method Run(code: Code, key: Key, len: int, ghost h: Header, ghost o: Options, ghost p: Params, ghost vals: seq<int>)
    returns (r: int)
    requires Describes(h, p, vals) && code == EmitHash(h, o, vals, code.tables) && TablesFor(h, o, p, code.tables)
    requires Bytes(key) && len == |key| && 0 <= Lo(h, o) && Hi(h, o) < ALPHASZ
    requires o.safe || InDomain(h, o, key)
    ensures InDomain(h, o, key) ==> KeyOk(p, key) && r == Hash(p, h.m, vals, key)
    ensures !InDomain(h, o, key) ==> r == -1
  {
    hide Compacted;
    hide TableSum;
    hide Hash;
    if code.lenRange.Some? && (len < code.lenRange.value.0 || len > code.lenRange.value.1) {
      return -1;
    }
    var i: int, f0: nat, f1: nat, f2: nat, k: nat := code.start, 0, 0, 0, 0;
    RunningStart(p, key);
    while k < |key|
      invariant ReadSoFar(h, o, key, k) && CursorAt(h, o, i, k) && (p.maxlen == 0 ==> k == 0)
      invariant f0 == Running(p, 0, key, k) && f1 == Running(p, 1, key, k)
      invariant p.d == 3 ==> f2 == Running(p, 2, key, k)
    {
      if code.charRange.Some? && (key[k] < code.charRange.value.0 || key[k] > code.charRange.value.1) {
        return -1;
      }
      if code.lastAt.Some? && k > code.lastAt.value {
        return -1;
      }
      assert k < h.maxklen && Lo(h, o) <= key[k] <= Hi(h, o);
      RunningStep(h, o, p, code.tables, 0, key, k, i);
      RunningStep(h, o, p, code.tables, 1, key, k, i);
      f0 := (f0 + code.tables[0][i + key[k]]) % UINT;
      f1 := (f1 + code.tables[1][i + key[k]]) % UINT;
      if code.d == 3 {
        RunningStep(h, o, p, code.tables, 2, key, k, i);
        f2 := (f2 + code.tables[2][i + key[k]]) % UINT;
      }
      if code.cursor {
        CursorMoves(h, o, i, k);
        i := i + code.step;
        if code.wrapAt.Some? && i >= code.wrapAt.value {
          i := code.start;
        }
      }
      k := k + 1;
    }
    if code.atLeast.Some? && k < code.atLeast.value {
      return -1;
    }
    r := Combine(code, f0, f1, f2, p, key);
  }

  lemma RunningStart(p: Params, key: Key)
    requires ParamsOk(p) && Bytes(key)
    ensures forall t :: 0 <= t < p.d ==> Running(p, t, key, 0) == 0
  {
    assert key[..0] == [];
  }

  /** The header of a key set, as mph writes it. */
  function HeaderFor(p: Params, s: Stats, m: nat): Header {
    Header(p.d, p.n, m, p.maxlen, s.minlen, s.maxlen, s.minchar, s.maxchar, p.loop)
  }

  /** The generated function is made for every key of the set exactly when it is emitted
      uncompacted or no key has a byte above 127. */
  lemma KeysInDomain(p: Params, s: Stats, keys: seq<Key>, o: Options)
    requires Bounds(s, keys) && Tight(s, keys) && forall e :: 0 <= e < |keys| ==> Bytes(keys[e])
    ensures var h := HeaderFor(p, s, |keys|);
            0 <= Lo(h, o) && Hi(h, o) < ALPHASZ && (forall e :: 0 <= e < |keys| ==> InDomain(h, o, keys[e]))
            <==> (!o.compact || forall e, k :: 0 <= e < |keys| && 0 <= k < |keys[e]| ==> keys[e][k] <= 127)
  {
    var h := HeaderFor(p, s, |keys|);
    if o.compact {
      NegativeMinChar(s, keys);
      forall e, k | 0 <= e < |keys| && 0 <= k < |keys[e]|
        ensures s.minchar <= SignedChar(keys[e][k]) <= s.maxchar
      {
        assert KeyWithin(s, keys[e]);
      }
      HighestChar(s, keys);
    }
  }

  lemma HighestChar(s: Stats, keys: seq<Key>)
    requires Tight(s, keys) && forall e :: 0 <= e < |keys| ==> Bytes(keys[e])
    ensures s.maxchar < 128
  {
    if s.maxchar != 0 {
      var e, k :| 0 <= e < |keys| && 0 <= k < |keys[e]| && SignedChar(keys[e][k]) == s.maxchar;
      assert Bytes(keys[e]);
    }
  }

  /** End to end: on the key set of a perfect hash the generated function returns each
      key's place in the input, whatever the options. */
  method RunOnKey(p: Params, keys: seq<Key>, s: Stats, vals: seq<int>, o: Options, e: nat) returns (r: int)
    requires |keys| > 0 && Perfect(p, keys, vals) && e < |keys|
    requires Bounds(s, keys) && Tight(s, keys) && forall f :: 0 <= f < |keys| ==> Bytes(keys[f])
    requires p.maxlen <= s.maxlen && (p.maxlen == 0 ==> s.maxlen == 0)
    requires o.compact ==> forall f, k :: 0 <= f < |keys| && 0 <= k < |keys[f]| ==> keys[f][k] <= 127
    ensures r == e
  {
    hide Hash;
    hide InDomain;
    KeysInDomain(p, s, keys, o);
    var h := HeaderFor(p, s, |keys|);
    var code := EmitC(h, o, Body(p, vals), p, vals);
    r := Run(code, keys[e], |keys[e]|, h, o, p, vals);
    PerfectHashes(p, keys, vals);
  }

  /** Where the cursor stands before the k-th byte. */
  function Cursor(h: Header, o: Options, k: nat): int {
    if h.maxlen <= 1 then 0 - Lo(h, o)
    else if h.maxlen < h.maxklen then AlphaSize(h, o) * (k % h.maxlen) - Lo(h, o)
    else AlphaSize(h, o) * k - Lo(h, o)
  }

  lemma CursorIsAt(h: Header, o: Options, i: int, k: nat)
    ensures CursorAt(h, o, i, k) <==> i == Cursor(h, o, k)
  {
  }

  /** The printed constants move the generated code's index along these positions. */
  lemma CursorRuns(h: Header, o: Options, g: seq<int>, tables: seq<seq<int>>, k: nat)
    requires h.maxlen > 0 && AlphaSize(h, o) > 0
    ensures var code := EmitHash(h, o, g, tables); var next := Cursor(h, o, k) + code.step;
            && Cursor(h, o, 0) == code.start
            && Cursor(h, o, k + 1)
               == if !code.cursor then Cursor(h, o, k)
                  else if code.wrapAt.Some? && next >= code.wrapAt.value then code.start else next
  {
    CursorIsAt(h, o, Cursor(h, o, k), k);
    DivModUnique(0, h.maxlen, 0, 0);
    if h.maxlen > 1 {
      CursorMoves(h, o, Cursor(h, o, k), k);
    }
  }

  /** For every table and its emitted form, the read at position i of the emitted table is the
      entry that the in-memory hash adds for byte c at place k. */
  ghost predicate ReadsRight(h: Header, o: Options, i: int, k: nat, c: nat)
    requires h.maxlen > 0 && c < ALPHASZ
  {
    forall full: seq<nat>, out: seq<int> :: Emitted(h, o, full, out) ==> ReadsEntry(h, full, out, i, k, c)
  }

  /** out is the form in which emitT writes the table full. */
  ghost predicate Emitted(h: Header, o: Options, full: seq<nat>, out: seq<int>) {
    |full| == h.maxlen * ALPHASZ && Compacted(full, out, h.maxlen, Max(Lo(h, o), 0), Hi(h, o))
  }

  ghost predicate ReadsEntry(h: Header, full: seq<nat>, out: seq<int>, i: int, k: nat, c: nat)
    requires h.maxlen > 0 && c < ALPHASZ && |full| == h.maxlen * ALPHASZ
  {
    CellInTable(h.maxlen, k, c);
    0 <= i < |out| && out[i] == full[Cell(h.maxlen, k, c)]
  }

  /** Every table read of the generated function on every key of the set is right. */
  ghost predicate AllReadsRight(h: Header, o: Options, keys: seq<Key>)
    requires forall e :: 0 <= e < |keys| ==> Bytes(keys[e])
    requires h.maxlen > 0
  {
    forall e, k :: 0 <= e < |keys| && 0 <= k < |keys[e]| ==> KeyReadsRight(h, o, keys[e], k)
  }

  ghost predicate KeyReadsRight(h: Header, o: Options, key: Key, k: nat)
    requires Bytes(key) && k < |key| && h.maxlen > 0
  {
    ReadsRight(h, o, Cursor(h, o, k) + key[k], k, key[k])
  }

  /** A kept column is read where it was emitted. */
  lemma KeptColumnReadsRight(h: Header, o: Options, k: nat, c: nat)
    requires 0 < h.maxlen <= h.maxklen && k < h.maxklen && 0 <= Lo(h, o) <= c <= Hi(h, o) < ALPHASZ
    ensures ReadsRight(h, o, Cursor(h, o, k) + c, k, c)
  {
    CursorIsAt(h, o, Cursor(h, o, k), k);
    CursorReads(h, o, Cursor(h, o, k), k);
    forall full: seq<nat>, out: seq<int> | Emitted(h, o, full, out)
      ensures ReadsEntry(h, full, out, Cursor(h, o, k) + c, k, c)
    {
      assert SameEntry(full, out, k % h.maxlen, c, Lo(h, o), Hi(h, o));
    }
  }

  /** A table whose kept columns are zero may be emitted as zeros. */
  lemma BlankColumns(h: Header, o: Options, full: seq<nat>, out: seq<int>)
    requires Max(Lo(h, o), 0) <= Hi(h, o) < ALPHASZ && |full| == h.maxlen * ALPHASZ
    requires |out| == h.maxlen * (Hi(h, o) - Max(Lo(h, o), 0) + 1)
    requires forall x :: 0 <= x < |out| ==> out[x] == 0
    requires forall x :: 0 <= x < |full| && full[x] != 0 ==> x % ALPHASZ > Hi(h, o)
    ensures Emitted(h, o, full, out)
  {
    hide Lo;
    hide Hi;
    var lo, hi := Max(Lo(h, o), 0), Hi(h, o);
    forall r: nat, b: nat | r < h.maxlen && lo <= b <= hi
      ensures SameEntry(full, out, r, b, lo, hi)
    {
      BlankEntry(full, out, h.maxlen, r, b, lo, hi);
    }
  }

  lemma BlankEntry(full: seq<nat>, out: seq<int>, rows: nat, r: nat, b: nat, lo: int, hi: int)
    requires 0 <= lo <= b <= hi < ALPHASZ && r < rows && |full| == rows * ALPHASZ && |out| == rows * (hi - lo + 1)
    requires forall x :: 0 <= x < |out| ==> out[x] == 0
    requires forall x :: 0 <= x < |full| && full[x] != 0 ==> x % ALPHASZ > hi
    ensures SameEntry(full, out, r, b, lo, hi)
  {
    RowFits(rows, r, b);
    EntryFits(rows, r, hi - lo + 1, b - lo);
  }

  /** The column of a byte beyond the kept ones is in no emitted table: two tables that differ
      there are emitted alike, so no read can be right for both. */
  lemma DroppedColumnReadsWrong(h: Header, o: Options, i: int, k: nat, c: nat)
    requires h.maxlen > 0 && Max(Lo(h, o), 0) <= Hi(h, o) < c < ALPHASZ
    ensures !ReadsRight(h, o, i, k, c)
  {
    hide Lo;
    hide Hi;
    hide Compacted;
    var size, lo, hi := h.maxlen * ALPHASZ, Max(Lo(h, o), 0), Hi(h, o);
    CellInTable(h.maxlen, k, c);
    var zeros: seq<nat> := seq(size, _ => 0);
    var marked := zeros[Cell(h.maxlen, k, c) := 1];
    var out: seq<int> := seq(h.maxlen * (hi - lo + 1), _ => 0);
    BlankColumns(h, o, zeros, out);
    BlankColumns(h, o, marked, out);
    hide Emitted;
    assert Emitted(h, o, zeros, out) && Emitted(h, o, marked, out);
    var both := ReadsEntry(h, zeros, out, i, k, c) && ReadsEntry(h, marked, out, i, k, c);
  }

  lemma EntryFits(rows: nat, r: nat, width: nat, x: nat)
    requires r < rows && x < width
    ensures 0 <= width * r + x < rows * width
  {
    MulLe(width, r + 1, rows);
    MulComm(width, rows);
    assert width * (r + 1) == width * r + width;
  }

  /** For any key set with table columns, the generated function reads the entries of the
      in-memory hash, whatever the tables hold, exactly when it is emitted uncompacted or no
      key has a byte above 127. */
  lemma ReadsRightIff(p: Params, s: Stats, keys: seq<Key>, o: Options)
    requires Bounds(s, keys) && Tight(s, keys) && forall e :: 0 <= e < |keys| ==> Bytes(keys[e])
    requires 0 < p.maxlen <= s.maxlen
    ensures AllReadsRight(HeaderFor(p, s, |keys|), o, keys)
            <==> (!o.compact || forall e, k :: 0 <= e < |keys| && 0 <= k < |keys[e]| ==> keys[e][k] <= 127)
  {
    var h := HeaderFor(p, s, |keys|);
    hide ReadsRight;
    HighestChar(s, keys);
    if !o.compact || forall e, k :: 0 <= e < |keys| && 0 <= k < |keys[e]| ==> keys[e][k] <= 127 {
      forall e, k | 0 <= e < |keys| && 0 <= k < |keys[e]|
        ensures KeyReadsRight(h, o, keys[e], k)
      {
        ColumnKept(p, s, keys, o, e, k);
        KeptColumnReadsRight(h, o, k, keys[e][k]);
      }
    } else {
      var e, k :| 0 <= e < |keys| && 0 <= k < |keys[e]| && keys[e][k] > 127;
      assert s.minchar <= SignedChar(keys[e][k]) by {
        assert KeyWithin(s, keys[e]);
      }
      DroppedColumnReadsWrong(h, o, Cursor(h, o, k) + keys[e][k], k, keys[e][k]);
      assert !KeyReadsRight(h, o, keys[e], k);
    }
  }

  lemma ColumnKept(p: Params, s: Stats, keys: seq<Key>, o: Options, e: nat, k: nat)
    requires Bounds(s, keys) && Tight(s, keys) && forall f :: 0 <= f < |keys| ==> Bytes(keys[f])
    requires !o.compact || forall f, j :: 0 <= f < |keys| && 0 <= j < |keys[f]| ==> keys[f][j] <= 127
    requires e < |keys| && k < |keys[e]|
    ensures var h := HeaderFor(p, s, |keys|);
            k < h.maxklen && 0 <= Lo(h, o) <= keys[e][k] <= Hi(h, o) < ALPHASZ
  {
    KeysInDomain(p, s, keys, o);
    assert InDomain(HeaderFor(p, s, |keys|), o, keys[e]);
  }

  // ---------------------------------------------------------------- two keys that break it

  /** A byte 255 before "aa", and "zaa". */
  const HIGH_BYTE_KEYS: seq<Key> := [[0xFF, 0x61, 0x61], [0x7A, 0x61, 0x61]]

  /** For these two keys with three table columns every read stays inside the table, yet even
      the plain second key is read wrong: its first byte finds the entry of byte 0 in row 1. */
  lemma HighByteMisreads(p: Params, o: Options)
    requires p.maxlen == 3 && o.compact
    ensures var s := Stats(3, 3, -1, 0x7A); var h := HeaderFor(p, s, 2);
            && Bounds(s, HIGH_BYTE_KEYS) && Tight(s, HIGH_BYTE_KEYS)
            && (forall e: nat, k: nat :: e < 2 && k < 3 ==>
                  0 <= Cursor(h, o, k) + HIGH_BYTE_KEYS[e][k] < 3 * (h.maxchar + 1))
            && Cursor(h, o, 0) + HIGH_BYTE_KEYS[1][0] == 123
            && forall full: seq<nat>, out: seq<int> :: Emitted(h, o, full, out) ==>
                 |out| == 3 * (h.maxchar + 1) && out[123] == full[ALPHASZ]
  {
    var s := Stats(3, 3, -1, 0x7A);
    var h := HeaderFor(p, s, 2);
    HighByteStats(s);
    HighByteCursor(p, o);
    hide *;
    forall full: seq<nat>, out: seq<int> | Emitted(h, o, full, out)
      ensures |out| == 3 * (h.maxchar + 1) && out[123] == full[ALPHASZ]
    {
      SecondRowEntry(h, o, full, out);
    }
  }

  lemma HighByteCursor(p: Params, o: Options)
    requires p.maxlen == 3 && o.compact
    ensures var h := HeaderFor(p, Stats(3, 3, -1, 0x7A), 2);
            && h.maxlen == 3 && h.maxchar == 0x7A && Lo(h, o) == -1 && Hi(h, o) == 0x7A
            && (forall e: nat, k: nat :: e < 2 && k < 3 ==> 0 <= Cursor(h, o, k) + HIGH_BYTE_KEYS[e][k] < 369)
            && Cursor(h, o, 0) + HIGH_BYTE_KEYS[1][0] == 123
  {
    var h := HeaderFor(p, Stats(3, 3, -1, 0x7A), 2);
    assert Cursor(h, o, 0) == 1 && Cursor(h, o, 1) == 125 && Cursor(h, o, 2) == 249;
    hide Cursor;
    hide HeaderFor;
  }

  lemma SecondRowEntry(h: Header, o: Options, full: seq<nat>, out: seq<int>)
    requires h.maxlen == 3 && Lo(h, o) == -1 && Hi(h, o) == 0x7A && Emitted(h, o, full, out)
    ensures |out| == 3 * 123 && |full| == 3 * ALPHASZ && out[123] == full[ALPHASZ]
  {
    hide Lo;
    hide Hi;
    assert SameEntry(full, out, 1, 0, 0, 0x7A);
  }

  lemma HighByteStats(s: Stats)
    requires s == Stats(3, 3, -1, 0x7A)
    ensures Bounds(s, HIGH_BYTE_KEYS) && Tight(s, HIGH_BYTE_KEYS)
  {
    var keys := HIGH_BYTE_KEYS;
    assert |keys[0]| == 3 && |keys[1]| == 3;
    assert SignedChar(keys[0][0]) == -1 && SignedChar(keys[1][0]) == 0x7A;
  }

  /** With a byte above 127 in the key set, the compacted code looks for the greatest char in
      the last table column past the end of the table; other bytes may be sought inside it. */
  lemma NegativeMinCharReadsOutside(p: Params, s: Stats, m: nat, o: Options, t: nat, out: seq<int>, k: nat, i: int)
    requires ParamsOk(p) && t < p.d && o.compact && s.minchar < 0 <= s.maxchar < ALPHASZ
    requires 0 < p.maxlen <= s.maxlen && k == p.maxlen - 1
    requires Compacted(p.tables[t], out, p.maxlen, 0, s.maxchar)
    requires CursorAt(HeaderFor(p, s, m), o, i, k)
    ensures i + s.maxchar >= |out|
  {
    var h := HeaderFor(p, s, m);
    CursorReads(h, o, i, k);
    DivModUnique(k, p.maxlen, 0, k);
    var a := AlphaSize(h, o);
    assert a * p.maxlen == a * k + a;
    MulComm(p.maxlen, s.maxchar + 1);
    MulLe(p.maxlen, s.maxchar + 2, a);
    assert p.maxlen * (s.maxchar + 2) == p.maxlen * (s.maxchar + 1) + p.maxlen;
    MulComm(p.maxlen, a);
  }
}
