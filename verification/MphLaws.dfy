/** What the node functions of the perfect hash compute, in terms of tables and bytes alone. */
module MphLaws {
  import opened Bits
  import opened Wrappers
  import opened MphGraph
  import opened Mph

  function Total(s: seq<nat>): nat {
    if s == [] then 0 else Total(s[..|s| - 1]) + s[|s| - 1]
  }

  /** The entries of table t that the bytes of a key select, column after column. */
  ghost function Selected(p: Params, key: Key, t: nat): (s: seq<nat>)
    requires ParamsOk(p) && KeyOk(p, key) && t < p.d
    ensures |s| == |key|
    ensures forall k :: 0 <= k < |key| ==>
              0 <= 256 * (k % p.maxlen) + key[k] < |p.tables[t]| && s[k] == p.tables[t][256 * (k % p.maxlen) + key[k]]
  {
    seq(|key|, k requires 0 <= k < |key| =>
      CellInTable(p.maxlen, k, key[k]);
      p.tables[t][256 * (k % p.maxlen) + key[k]])
  }

  lemma {:induction false} SumOfSelected(p: Params, key: Key, t: nat)
    requires ParamsOk(p) && KeyOk(p, key) && t < p.d
    ensures TableSum(p.tables[t], p.maxlen, key) == Total(Selected(p, key, t))
  {
    if key != [] {
      var k := |key| - 1;
      SumOfSelected(p, key[..k], t);
      assert Selected(p, key, t)[..k] == Selected(p, key[..k], t);
    }
  }

  /** Without the loop option node t of a key is the 32-bit sum of its entries in table t, modulo
      the number of nodes. */
  lemma NodeIsSum(p: Params, key: Key, t: nat)
    requires ParamsOk(p) && KeyOk(p, key) && t < p.d && !p.loop
    ensures Nodes(p, key)[t] == (Total(Selected(p, key, t)) % 0x1_0000_0000) % p.n
  {
    SumOfSelected(p, key, t);
  }

  /** Node t is the first one, from spot on and round the circle, that differs from the nodes
      before it. */
  ghost predicate FirstFree(f: seq<nat>, t: nat, spot: nat, n: nat)
    requires t < |f| && n > 0
  {
    && f[t] !in f[..t]
    && (|| f[t] == spot % n
        || (f[t] == (spot + 1) % n && spot % n in f[..t])
        || (f[t] == (spot + 2) % n && spot % n in f[..t] && (spot + 1) % n in f[..t]))
  }

  lemma StepIsSuccessor(v: nat, n: nat)
    requires v < n
    ensures v % n == v && (v + 1) % n == Step(v, n) && (v + 2) % n == Step(Step(v, n), n)
  {
    DivModUnique(v, n, 0, v);
    ModSuccessor(v, n);
    ModSuccessor(v + 1, n);
  }

  lemma Spread2Free(v1: nat, v2: nat, n: nat)
    requires n >= 2 && v1 < n && v2 < n
    ensures var f := Spread2(v1, v2, n, true);
            f[0] == v1 && FirstFree(f, 0, v1, n) && FirstFree(f, 1, v2, n)
  {
    var f := Spread2(v1, v2, n, true);
    StepIsSuccessor(v1, n);
    StepIsSuccessor(v2, n);
    assert f[..0] == [] && f[..1] == [v1];
  }

  lemma Spread3Free(v1: nat, v2: nat, v3: nat, n: nat)
    requires n >= 3 && v1 < n && v2 < n && v3 < n
    ensures var f := Spread3(v1, v2, v3, n, true);
            f[0] == v1 && FirstFree(f, 0, v1, n) && FirstFree(f, 1, v2, n) && FirstFree(f, 2, v3, n)
  {
    var f := Spread3(v1, v2, v3, n, true);
    StepIsSuccessor(v1, n);
    StepIsSuccessor(v2, n);
    StepIsSuccessor(v3, n);
    assert f[..0] == [] && f[..1] == [v1] && f[..2] == [v1, f[1]];
  }

  /** With the loop option and enough nodes, each node is the first free one from its sum on. */
  lemma LoopOptionSpreads(p: Params, key: Key, t: nat)
    requires ParamsOk(p) && KeyOk(p, key) && t < p.d && p.loop && p.n >= p.d
    ensures FirstFree(Nodes(p, key), t, (Total(Selected(p, key, t)) % 0x1_0000_0000) % p.n, p.n)
  {
    SumOfSelected(p, key, t);
    hide TableSum;
    hide FirstFree;
    if p.d == 2 {
      Spread2Free(Spot(p, key, 0), Spot(p, key, 1), p.n);
    } else {
      Spread3Free(Spot(p, key, 0), Spot(p, key, 1), Spot(p, key, 2), p.n);
    }
  }

  /** The option keeps keys from loops exactly when there are as many nodes as ends. */
  lemma NoLoopIff(p: Params, key: Key)
    requires ParamsOk(p) && KeyOk(p, key) && p.loop
    ensures !HasLoop(Nodes(p, key)) <==> p.n >= p.d
  {
    hide Spot;
    var f := Nodes(p, key);
    assert forall t :: 0 <= t < |f| ==> f[t] in f;
  }

  // ---------------------------------------------------------------- realisation

  /** Different keys of one byte. */
  ghost predicate OneByteKeys(keys: seq<Key>) {
    && (forall e :: 0 <= e < |keys| ==> |keys[e]| == 1 && 0 < keys[e][0] < 256)
    && forall e, f :: 0 <= e < f < |keys| ==> keys[e][0] != keys[f][0]
  }

  ghost predicate EdgeList(edges: seq<seq<nat>>, n: nat, d: nat) {
    forall e :: 0 <= e < |edges| ==> |edges[e]| == d && forall t :: 0 <= t < d ==> edges[e][t] < n
  }

  /** A table with one column that gives the byte of key e the entry edges[e][t]. */
  function OneColumn(keys: seq<Key>, edges: seq<seq<nat>>, t: nat): (table: seq<nat>)
    requires |keys| == |edges| && forall e :: 0 <= e < |keys| ==> |keys[e]| == 1 && t < |edges[e]|
    ensures |table| == 256
  {
    if keys == [] then seq(256, _ => 0)
    else
      var e := |keys| - 1;
      var rest := OneColumn(keys[..e], edges[..e], t);
      if keys[e][0] < 256 then rest[keys[e][0] := edges[e][t]] else rest
  }

  lemma {:induction false} ColumnEntry(keys: seq<Key>, edges: seq<seq<nat>>, n: nat, d: nat, t: nat, e: nat)
    requires OneByteKeys(keys) && EdgeList(edges, n, d) && |keys| == |edges| && t < d && e < |keys|
    ensures OneColumn(keys, edges, t)[keys[e][0]] == edges[e][t]
  {
    var k := |keys| - 1;
    if e < k {
      assert keys[..k][e] == keys[e] && edges[..k][e] == edges[e];
      ColumnEntry(keys[..k], edges[..k], n, d, t, e);
    }
  }

  function Realisation(d: nat, n: nat, keys: seq<Key>, edges: seq<seq<nat>>): Params
    requires |keys| == |edges| && forall e :: 0 <= e < |keys| ==> |keys[e]| == 1 && |edges[e]| == d
  {
    Params(d, n, false, 1, seq(d, t requires 0 <= t < d => OneColumn(keys, edges, t)))
  }

  /** Any edges over any nodes are the edges of different one-byte keys under some tables. */
  lemma AnyEdges(d: nat, n: nat, keys: seq<Key>, edges: seq<seq<nat>>)
    requires (d == 2 || d == 3) && 0 < n <= 0x1_0000_0000
    requires OneByteKeys(keys) && EdgeList(edges, n, d) && |keys| == |edges|
    ensures var p := Realisation(d, n, keys, edges);
            ParamsOk(p) && KeysOk(p, keys) && EdgesOf(p, keys) == edges
  {
    var p := Realisation(d, n, keys, edges);
    hide Nodes;
    hide OneColumn;
    forall e | 0 <= e < |keys|
      ensures Nodes(p, keys[e]) == edges[e]
    {
      RealisedNodes(d, n, keys, edges, e);
    }
  }

  lemma RealisedNodes(d: nat, n: nat, keys: seq<Key>, edges: seq<seq<nat>>, e: nat)
    requires (d == 2 || d == 3) && 0 < n <= 0x1_0000_0000
    requires OneByteKeys(keys) && EdgeList(edges, n, d) && |keys| == |edges| && e < |keys|
    ensures var p := Realisation(d, n, keys, edges);
            ParamsOk(p) && KeyOk(p, keys[e]) && Nodes(p, keys[e]) == edges[e]
  {
    hide OneColumn;
    var p, key := Realisation(d, n, keys, edges), keys[e];
    forall t | 0 <= t < d
      ensures Nodes(p, key)[t] == edges[e][t]
    {
      NodeIsSum(p, key, t);
      ColumnEntry(keys, edges, n, d, t, e);
      var s := Selected(p, key, t);
      assert 0 % p.maxlen == 0 && s == [edges[e][t]] && s[..0] == [];
      DivModUnique(edges[e][t], 0x1_0000_0000, 0, edges[e][t]);
      DivModUnique(edges[e][t], n, 0, edges[e][t]);
    }
  }

  /** Under these tables a round succeeds exactly when no edge is a loop and no set of edges is
      a core; the values then sum to each key's place. */
  method BuildEdges(d: nat, n: nat, keys: seq<Key>, edges: seq<seq<nat>>) returns (p: Params, r: Option<seq<int>>)
    requires (d == 2 || d == 3) && 0 < n <= 0x1_0000_0000 && keys != []
    requires OneByteKeys(keys) && EdgeList(edges, n, d) && |keys| == |edges|
    ensures ParamsOk(p) && KeysOk(p, keys) && EdgesOf(p, keys) == edges
    ensures r.Some? <==> Loopless(edges) && forall core :: !TwoCore(edges, core)
    ensures r.Some? ==> Perfect(p, keys, r.value)
  {
    hide TwoCore;
    hide Nodes;
    hide Perfect;
    AnyEdges(d, n, keys, edges);
    p := Realisation(d, n, keys, edges);
    hide Realisation;
    LooplessIff(edges, n, d);
    r := Build(p, keys);
  }

  lemma LooplessIff(edges: seq<seq<nat>>, n: nat, d: nat)
    requires EdgeList(edges, n, d) && (d == 2 || d == 3)
    ensures Loopless(edges) <==> forall e :: 0 <= e < |edges| ==> !HasLoop(edges[e])
  {
  }

  /** A perfect hash written out: the values of the two or three nodes sum to the key's place,
      modulo the number of keys. */
  lemma PerfectSums(p: Params, keys: seq<Key>, vals: seq<int>, e: nat)
    requires Perfect(p, keys, vals) && e < |keys|
    ensures var f := Nodes(p, keys[e]);
            && |f| == p.d && (forall j :: 0 <= j < p.d ==> f[j] < |vals|)
            && e == (vals[f[0]] + vals[f[1]] + if p.d == 3 then vals[f[2]] else 0) % |keys|
  {
    var f := Nodes(p, keys[e]);
    hide Nodes;
    NodesInRange(f, p.n);
    PerfectHashes(p, keys, vals);
    SumOfTwo(vals, f);
  }

  lemma SumOfTwo(vals: seq<int>, f: seq<nat>)
    requires (|f| == 2 || |f| == 3) && forall j :: 0 <= j < |f| ==> f[j] < |vals|
    ensures ValueSum(vals, f) == vals[f[0]] + vals[f[1]] + if |f| == 3 then vals[f[2]] else 0
  {
    assert f[..2] == [f[0], f[1]] && [f[0], f[1]][..1] == [f[0]] && [f[0]][..0] == [];
    assert ValueSum(vals, [f[0]]) == ValueSum(vals, []) + vals[f[0]];
    assert ValueSum(vals, [f[0], f[1]]) == ValueSum(vals, [f[0]]) + vals[f[1]];
  }
}
