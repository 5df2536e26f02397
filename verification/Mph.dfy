/**
 The minimal perfect hash: node functions over random tables, edge generation,
 assignment of node values in reverse peeling order, and verification.
 */
module Mph {
  import opened Bits
  import opened Wrappers
  import opened MphGraph

  const ALPHASZ: nat := 256
  const UINT: nat := 0x1_0000_0000

  /** The settings of a run and its random tables, one per edge end. */
  datatype Params = Params(d: nat, n: nat, loop: bool, maxlen: nat, tables: seq<seq<nat>>)

  type Key = seq<nat>

  predicate ParamsOk(p: Params) {
    && (p.d == 2 || p.d == 3) && p.n > 0 && |p.tables| == p.d
    && forall t :: 0 <= t < p.d ==> |p.tables[t]| == p.maxlen * ALPHASZ
  }

  /** Bytes of a C string; with no table columns only the empty key may be hashed. */
  predicate KeyOk(p: Params, key: Key) {
    Bytes(key) && (p.maxlen == 0 ==> key == [])
  }

  predicate Bytes(key: Key) {
    forall i :: 0 <= i < |key| ==> 0 < key[i] < ALPHASZ
  }

  // ---------------------------------------------------------------- node functions

  /** Where the entry for the k-th byte of a key lives. */
  function Cell(maxlen: nat, k: nat, c: nat): nat
    requires maxlen > 0
  {
    ALPHASZ * (k % maxlen) + c
  }

  lemma CellInTable(maxlen: nat, k: nat, c: nat)
    requires maxlen > 0 && c < ALPHASZ
    ensures Cell(maxlen, k, c) < maxlen * ALPHASZ
  {
  }

  /** Sum of the table entries that the bytes of a key select. */
  function TableSum(table: seq<nat>, maxlen: nat, key: Key): nat
    requires |table| == maxlen * ALPHASZ
    requires Bytes(key) && (maxlen == 0 ==> key == [])
  {
    if key == [] then 0
    else
      var k := |key| - 1;
      CellInTable(maxlen, k, key[k]);
      TableSum(table, maxlen, key[..k]) + table[Cell(maxlen, k, key[k])]
  }

  function Step(v: nat, n: nat): nat {
    if v + 1 >= n then 0 else v + 1
  }

  /** Moves the second node off the first. */
  function Spread2(v1: nat, v2: nat, n: nat, loop: bool): seq<nat> {
    [v1, if loop && v2 == v1 then Step(v2, n) else v2]
  }

  /** Moves the second and third nodes off the first and off each other. */
  function Spread3(v1: nat, v2: nat, v3: nat, n: nat, loop: bool): seq<nat> {
    if !loop then [v1, v2, v3]
    else
      var w2 := if v2 == v1 then Step(v2, n) else v2;
      var w3 := if v3 == v1 then Step(v3, n) else v3;
      if w2 != w3 then [v1, w2, w3]
      else
        var x3 := Step(w3, n);
        [v1, w2, if x3 == v1 then Step(x3, n) else x3]
  }

  /** The end of edge t before spreading. */
  function Spot(p: Params, key: Key, t: nat): nat
    requires ParamsOk(p) && KeyOk(p, key) && t < p.d
  {
    (TableSum(p.tables[t], p.maxlen, key) % UINT) % p.n
  }

  /** The nodes of a key: ff2 and ff3. */
  function Nodes(p: Params, key: Key): (f: seq<nat>)
    requires ParamsOk(p) && KeyOk(p, key)
    ensures |f| == p.d && forall v :: v in f ==> v < p.n
  {
    if p.d == 2 then Spread2(Spot(p, key, 0), Spot(p, key, 1), p.n, p.loop)
    else Spread3(Spot(p, key, 0), Spot(p, key, 1), Spot(p, key, 2), p.n, p.loop)
  }

  predicate HasLoop(f: seq<nat>)
    requires |f| == 2 || |f| == 3
  {
    f[0] == f[1] || (|f| == 3 && (f[0] == f[2] || f[1] == f[2]))
  }

  /** With the loop option and enough nodes no key ever maps to a loop. */
  lemma SpreadAvoidsLoops(p: Params, key: Key)
    requires ParamsOk(p) && KeyOk(p, key) && p.loop && p.n >= p.d
    ensures !HasLoop(Nodes(p, key))
  {
  }

  /** One more byte adds the entry under the cursor. */
  lemma TableSumStep(table: seq<nat>, maxlen: nat, key: Key, k: nat, i: nat)
    requires |table| == maxlen * ALPHASZ && maxlen > 0 && Bytes(key) && k < |key|
    requires i == ALPHASZ * (k % maxlen)
    ensures i + key[k] < |table|
    ensures (TableSum(table, maxlen, key[..k]) % UINT + table[i + key[k]]) % UINT
         == TableSum(table, maxlen, key[..k + 1]) % UINT
  {
    assert key[..k + 1][..k] == key[..k];
    CellInTable(maxlen, k, key[k]);
  }

  /** The table cursor moves one column on and wraps at the end of the table. */
  lemma CursorStep(maxlen: nat, k: nat, i: nat)
    requires maxlen > 0 && i == ALPHASZ * (k % maxlen)
    ensures (if i + ALPHASZ >= maxlen * ALPHASZ then 0 else i + ALPHASZ) == ALPHASZ * ((k + 1) % maxlen)
  {
    ModSuccessor(k, maxlen);
    CellInTable(maxlen, k, 0);
  }

  /** ff2: two running sums, one table cursor. */
  method Ff2(p: Params, key: Key) returns (f: seq<nat>)
    requires ParamsOk(p) && KeyOk(p, key) && p.d == 2
    ensures f == Nodes(p, key)
  {
    var tsize := p.maxlen * ALPHASZ;
    var i, v1, v2, k := 0, 0, 0, 0;
    while k < |key|
      invariant k <= |key| && (p.maxlen > 0 ==> i == ALPHASZ * (k % p.maxlen))
      invariant v1 == TableSum(p.tables[0], p.maxlen, key[..k]) % UINT
      invariant v2 == TableSum(p.tables[1], p.maxlen, key[..k]) % UINT
    {
      TableSumStep(p.tables[0], p.maxlen, key, k, i);
      TableSumStep(p.tables[1], p.maxlen, key, k, i);
      CursorStep(p.maxlen, k, i);
      v1 := (v1 + p.tables[0][i + key[k]]) % UINT;
      v2 := (v2 + p.tables[1][i + key[k]]) % UINT;
      i := i + ALPHASZ;
      if i >= tsize {
        i := 0;
      }
      k := k + 1;
    }
    assert key[..k] == key;
    v1, v2 := v1 % p.n, v2 % p.n;
    if p.loop && v2 == v1 {
      v2 := v2 + 1;
      if v2 >= p.n {
        v2 := 0;
      }
    }
    f := [v1, v2];
  }

  /** ff3: three running sums; the spreading reduces the probability of loops. */
  method Ff3(p: Params, key: Key) returns (f: seq<nat>)
    requires ParamsOk(p) && KeyOk(p, key) && p.d == 3
    ensures f == Nodes(p, key)
  {
    var tsize := p.maxlen * ALPHASZ;
    var i, v1, v2, v3, k := 0, 0, 0, 0, 0;
    while k < |key|
      invariant k <= |key| && (p.maxlen > 0 ==> i == ALPHASZ * (k % p.maxlen))
      invariant v1 == TableSum(p.tables[0], p.maxlen, key[..k]) % UINT
      invariant v2 == TableSum(p.tables[1], p.maxlen, key[..k]) % UINT
      invariant v3 == TableSum(p.tables[2], p.maxlen, key[..k]) % UINT
    {
      TableSumStep(p.tables[0], p.maxlen, key, k, i);
      TableSumStep(p.tables[1], p.maxlen, key, k, i);
      TableSumStep(p.tables[2], p.maxlen, key, k, i);
      CursorStep(p.maxlen, k, i);
      v1 := (v1 + p.tables[0][i + key[k]]) % UINT;
      v2 := (v2 + p.tables[1][i + key[k]]) % UINT;
      v3 := (v3 + p.tables[2][i + key[k]]) % UINT;
      i := i + ALPHASZ;
      if i >= tsize {
        i := 0;
      }
      k := k + 1;
    }
    assert key[..k] == key;
    v1, v2, v3 := v1 % p.n, v2 % p.n, v3 % p.n;
    if p.loop {
      if v2 == v1 {
        v2 := Step(v2, p.n);
      }
      if v3 == v1 {
        v3 := Step(v3, p.n);
      }
      if v2 == v3 {
        v3 := Step(v3, p.n);
        if v3 == v1 {
          v3 := Step(v3, p.n);
        }
      }
    }
    f := [v1, v2, v3];
  }

  /** The node function selected by the edge dimension. */
  method Ff(p: Params, key: Key) returns (f: seq<nat>)
    requires ParamsOk(p) && KeyOk(p, key)
    ensures f == Nodes(p, key)
  {
    if p.d == 2 {
      f := Ff2(p, key);
    } else {
      f := Ff3(p, key);
    }
  }

  // ---------------------------------------------------------------- edges from keys

  ghost predicate KeysOk(p: Params, keys: seq<Key>) {
    forall e :: 0 <= e < |keys| ==> KeyOk(p, keys[e])
  }

  ghost predicate GraphFor(p: Params, keys: seq<Key>, gp: Graph)
    reads gp`edges
  {
    gp.Shape() && gp.numNodes == p.n && gp.numEdges == |keys| && gp.edgeDim == p.d
  }

  /** The edges of the first e keys are set, free of loops and linked; no other edge is. */
  ghost predicate Linked(p: Params, keys: seq<Key>, gp: Graph, e: nat)
    requires ParamsOk(p) && KeysOk(p, keys) && e <= |keys|
    reads gp`edges, gp`adj, gp.first, gp.next
  {
    && GraphFor(p, keys, gp) && gp.Lists() && gp.Members(Halves(|keys|, p.d, Below(e)))
    && forall f :: 0 <= f < e ==> gp.edges[f] == Nodes(p, keys[f]) && !HasLoop(gp.edges[f])
  }

  /** One edge per key, in input order; fails on the first key that maps to a loop. */
  method GenEdges(p: Params, keys: seq<Key>, gp: Graph) returns (ok: bool)
    requires ParamsOk(p) && KeysOk(p, keys) && GraphFor(p, keys, gp)
    modifies gp`edges, gp`adj, gp.first, gp.next
    ensures GraphFor(p, keys, gp)
    ensures ok <==> forall e :: 0 <= e < |keys| ==> !HasLoop(Nodes(p, keys[e]))
    ensures ok ==> Linked(p, keys, gp, |keys|)
  {
    hide Nodes;
    hide HasLoop;
    gp.GrDelEdges();
    NoHalves(|keys|, p.d);
    assert Linked(p, keys, gp, 0);
    hide Linked;
    for e := 0 to |keys|
      invariant GraphFor(p, keys, gp) && Linked(p, keys, gp, e)
      invariant forall f :: 0 <= f < e ==> !HasLoop(Nodes(p, keys[f]))
    {
      ok := LinkKey(p, keys, gp, e);
      if !ok {
        return;
      }
    }
    ok := true;
  }

  lemma NoHalves(m: nat, d: nat)
    ensures Halves(m, d, Below(0)) == {}
  {
  }

  lemma NoLoops(edges: seq<seq<nat>>, n: nat, d: nat)
    requires EdgesOk(edges, n, d) && (d == 2 || d == 3)
    requires forall e :: 0 <= e < |edges| ==> !HasLoop(edges[e])
    ensures Loopless(edges)
  {
  }

  /** Computes the nodes of key e and, unless they form a loop, links its edge. */
  method LinkKey(p: Params, keys: seq<Key>, gp: Graph, e: nat) returns (ok: bool)
    requires ParamsOk(p) && KeysOk(p, keys) && e < |keys| && Linked(p, keys, gp, e)
    modifies gp`edges, gp`adj, gp.first, gp.next
    ensures GraphFor(p, keys, gp)
    ensures ok <==> !HasLoop(Nodes(p, keys[e]))
    ensures ok ==> Linked(p, keys, gp, e + 1)
  {
    hide Nodes;
    hide ListIs;
    hide EdgesOk;
    hide NodeOf;
    hide Halves;
    hide HasLoop;
    var f := Ff(p, keys[e]);
    if HasLoop(f) {
      return false;
    }
    gp.SetEdge(e, f, Below(e));
    gp.GrAddEdge(e, Below(e));
    assert Below(e + 1) == Below(e) + {e};
    ok := true;
  }

  // ---------------------------------------------------------------- assignment

  /** Sum of the values of some nodes. */
  function ValueSum(vals: seq<int>, nodes: seq<nat>): int
    requires forall j :: 0 <= j < |nodes| ==> nodes[j] < |vals|
  {
    if nodes == [] then 0 else ValueSum(vals, nodes[..|nodes| - 1]) + vals[nodes[|nodes| - 1]]
  }

  lemma {:induction false} SumFrame(vals: seq<int>, vals': seq<int>, nodes: seq<nat>)
    requires |vals| == |vals'|
    requires forall j :: 0 <= j < |nodes| ==> nodes[j] < |vals| && vals[nodes[j]] == vals'[nodes[j]]
    ensures ValueSum(vals, nodes) == ValueSum(vals', nodes)
  {
    if nodes != [] {
      SumFrame(vals, vals', nodes[..|nodes| - 1]);
    }
  }

  /** Changing the value of one of several distinct nodes changes the sum by as much. */
  lemma {:induction false} SumOneChange(vals: seq<int>, nodes: seq<nat>, j: nat, y: int)
    requires j < |nodes| && NoRepeats(nodes) && forall i :: 0 <= i < |nodes| ==> nodes[i] < |vals|
    ensures ValueSum(vals[nodes[j] := y], nodes) == ValueSum(vals, nodes) - vals[nodes[j]] + y
  {
    var k := |nodes| - 1;
    if j == k {
      SumFrame(vals, vals[nodes[j] := y], nodes[..k]);
    } else {
      SumOneChange(vals, nodes[..k], j, y);
    }
  }

  /** The C remainder, which takes the sign of the dividend. */
  function CRem(a: int, m: nat): int
    requires m > 0
  {
    if a >= 0 then a % m else -((-a) % m)
  }

  /** Lifting a negative remainder by m completes the sum to e modulo m. */
  lemma CompletesSum(e: nat, sum: int, m: nat)
    requires e < m
    ensures var r := CRem(e - sum, m); var v := if r < 0 then r + m else r;
            0 <= v < m && (sum + v) % m == e
  {
    var a := e - sum;
    var r := CRem(a, m);
    var v := if r < 0 then r + m else r;
    if a >= 0 {
      assert a == m * (a / m) + r;
      DivModUnique(sum + v, m, 0 - a / m, e);
    } else {
      assert -a == m * ((-a) / m) + (-a) % m;
      var q := (-a) / m;
      if r < 0 {
        assert m * (q + 1) == m * q + m;
        DivModUnique(sum + v, m, q + 1, e);
      } else {
        DivModUnique(sum + v, m, q, e);
      }
    }
  }

  /** Values after the edges of done: their nodes are valued and sum to the edge
      number modulo m; every other node is unset. */
  ghost predicate Assigned(vals: seq<int>, edges: seq<seq<nat>>, done: set<nat>, m: nat) {
    && m > 0
    && (forall e :: 0 <= e < |edges| ==> forall j :: 0 <= j < |edges[e]| ==> edges[e][j] < |vals|)
    && (forall e :: e in done ==> e < |edges|)
    && (forall v :: 0 <= v < |vals| ==> -1 <= vals[v] < m)
    && (forall v :: 0 <= v < |vals| ==> (vals[v] >= 0 <==> exists e :: e in done && Touches(edges, e, v)))
    && (forall e :: e in done ==> ValueSum(vals, edges[e]) % m == e)
  }

  /** The values while the nodes of one edge are visited: unset ones become 0. */
  ghost predicate Visited(vals0: seq<int>, vals: seq<int>, nodes: seq<nat>, j: nat)
    requires j <= |nodes|
  {
    && |vals| == |vals0|
    && forall v :: 0 <= v < |vals| ==> vals[v] == if vals0[v] < 0 && v in nodes[..j] then 0 else vals0[v]
  }

  /** Sums the set nodes of edge e, zeroes the unset ones and returns the last of those. */
  method ZeroUnset(gp: Graph, e: nat, ghost free: nat) returns (sum: int, unsetv: nat)
    requires gp.Shape() && e < gp.numEdges && NoRepeats(gp.edges[e])
    requires free < gp.edgeDim && gp.first[gp.edges[e][free]] < 0
    modifies gp.first
    ensures Visited(old(gp.first[..]), gp.first[..], gp.edges[e], gp.edgeDim)
    ensures sum == ValueSum(gp.first[..], gp.edges[e])
    ensures unsetv in gp.edges[e] && unsetv < gp.first.Length && old(gp.first[..])[unsetv] < 0
  {
    hide ValueSum;
    var nodes := gp.edges[e];
    sum, unsetv := 0, 0;
    SumStart(gp.first[..], nodes);
    for j := 0 to gp.edgeDim
      invariant Visited(old(gp.first[..]), gp.first[..], nodes, j)
      invariant sum == ValueSum(gp.first[..], nodes[..j])
      invariant free < j ==> unsetv in nodes[..j] && unsetv < gp.first.Length && old(gp.first[..])[unsetv] < 0
    {
      var v := nodes[j];
      assert v !in nodes[..j];
      ghost var before := gp.first[..];
      SumMore(before, nodes, j);
      assert nodes[..j + 1] == nodes[..j] + [v];
      if gp.first[v] < 0 {
        unsetv := v;
        gp.first[v] := 0;
        SumMore(gp.first[..], nodes, j);
        SumFrame(before, gp.first[..], nodes[..j]);
      } else {
        sum := sum + gp.first[v];
      }
    }
    assert nodes[..gp.edgeDim] == nodes;
  }

  lemma SumStart(vals: seq<int>, nodes: seq<nat>)
    ensures ValueSum(vals, nodes[..0]) == 0
  {
  }

  lemma SumMore(vals: seq<int>, nodes: seq<nat>, j: nat)
    requires j < |nodes| && forall i :: 0 <= i < |nodes| ==> nodes[i] < |vals|
    ensures ValueSum(vals, nodes[..j + 1]) == ValueSum(vals, nodes[..j]) + vals[nodes[j]]
  {
    assert nodes[..j + 1][..j] == nodes[..j];
  }

  /** Gives the unset nodes of edge e values that make its node sum e modulo m. */
  method AssignEdge(gp: Graph, e: nat, ghost done: set<nat>)
    requires gp.Shape() && Loopless(gp.edges) && e < gp.numEdges
    requires Assigned(gp.first[..], gp.edges, done, gp.numEdges)
    requires FreeNode(gp.edges, e, done)
    modifies gp.first
    ensures Assigned(gp.first[..], gp.edges, done + {e}, gp.numEdges)
  {
    var m := gp.numEdges;
    ghost var nodes, vals0 := gp.edges[e], gp.first[..];
    ghost var free := UnsetNode(vals0, gp.edges, done, e, m);
    assert NoRepeats(nodes);
    hide FreeNode;
    hide Loopless;
    hide Assigned;
    hide ValueSum;
    hide NoRepeats;
    var sum, unsetv := ZeroUnset(gp, e, free);
    ghost var zeroed := gp.first[..];
    ghost var y := SetLast(gp, e, sum, unsetv);
    OneSet(zeroed, nodes, unsetv, y);
    EdgeSet(vals0, zeroed, gp.edges, done, e, m, unsetv, y);
  }

  /** Gives the last unset node the value that completes the sum to e modulo m. */
  method SetLast(gp: Graph, e: nat, sum: int, unsetv: nat) returns (ghost y: int)
    requires e < gp.numEdges && unsetv < gp.first.Length
    modifies gp.first
    ensures gp.first[..] == old(gp.first[..])[unsetv := y] && 0 <= y < gp.numEdges && (sum + y) % gp.numEdges == e
  {
    CompletesSum(e, sum, gp.numEdges);
    hide CRem;
    gp.first[unsetv] := CRem(e - sum, gp.numEdges);
    if gp.first[unsetv] < 0 {
      gp.first[unsetv] := gp.first[unsetv] + gp.numEdges;
    }
    y := gp.first[unsetv];
  }

  lemma OneSet(zeroed: seq<int>, nodes: seq<nat>, unsetv: nat, y: int)
    requires NoRepeats(nodes) && unsetv in nodes && forall i :: 0 <= i < |nodes| ==> nodes[i] < |zeroed|
    requires zeroed[unsetv] == 0
    ensures ValueSum(zeroed[unsetv := y], nodes) == ValueSum(zeroed, nodes) + y
  {
    var at :| 0 <= at < |nodes| && nodes[at] == unsetv;
    SumOneChange(zeroed, nodes, at, y);
  }

  lemma EdgeSet(vals0: seq<int>, zeroed: seq<int>, edges: seq<seq<nat>>, done: set<nat>, e: nat, m: nat,
                unsetv: nat, y: int)
    requires Assigned(vals0, edges, done, m) && e < |edges|
    requires Visited(vals0, zeroed, edges[e], |edges[e]|)
    requires unsetv in edges[e] && unsetv < |vals0| && vals0[unsetv] < 0 && 0 <= y < m
    requires ValueSum(zeroed[unsetv := y], edges[e]) % m == e
    ensures Assigned(zeroed[unsetv := y], edges, done + {e}, m)
  {
    assert edges[e][..|edges[e]|] == edges[e];
    EdgeDone(vals0, zeroed[unsetv := y], edges, done, e, m);
  }

  lemma UnsetNode(vals: seq<int>, edges: seq<seq<nat>>, done: set<nat>, e: nat, m: nat) returns (j: nat)
    requires Assigned(vals, edges, done, m) && FreeNode(edges, e, done)
    ensures j < |edges[e]| && vals[edges[e][j]] < 0
  {
    var v :| v in edges[e] && forall f :: f in done ==> !Touches(edges, f, v);
    j :| 0 <= j < |edges[e]| && edges[e][j] == v;
  }

  /** Setting nodes that were unset keeps every earlier sum. */
  lemma EdgeDone(vals0: seq<int>, vals: seq<int>, edges: seq<seq<nat>>, done: set<nat>, e: nat, m: nat)
    requires Assigned(vals0, edges, done, m) && |vals| == |vals0| && e < |edges|
    requires forall v :: 0 <= v < |vals| ==> -1 <= vals[v] < m
    requires forall v :: 0 <= v < |vals| && (vals0[v] >= 0 || v !in edges[e]) ==> vals[v] == vals0[v]
    requires forall v :: 0 <= v < |vals| && v in edges[e] ==> vals[v] >= 0
    requires ValueSum(vals, edges[e]) % m == e
    ensures Assigned(vals, edges, done + {e}, m)
  {
    forall f | f in done
      ensures ValueSum(vals, edges[f]) % m == f
    {
      forall j | 0 <= j < |edges[f]|
        ensures vals[edges[f][j]] == vals0[edges[f][j]]
      {
        assert Touches(edges, f, edges[f][j]);
      }
      SumFrame(vals0, vals, edges[f]);
    }
    forall v | 0 <= v < |vals|
      ensures vals[v] >= 0 <==> exists f :: f in done + {e} && Touches(edges, f, v)
    {
      if v in edges[e] {
        assert e in done + {e} && Touches(edges, e, v);
      } else if vals[v] >= 0 {
        var f :| f in done && Touches(edges, f, v);
        assert f in done + {e};
      }
    }
  }

  /** The edges popped once only the first sp are left on the stack. */
  ghost function Popped(removed: seq<nat>, sp: nat): set<nat>
    requires sp <= |removed|
  {
    set i | sp <= i < |removed| :: removed[i]
  }

  lemma PopOne(edges: seq<seq<nat>>, removed: seq<nat>, sp: nat)
    requires sp < |removed| && PeelOrder(edges, removed, {})
    ensures Popped(removed, sp) == Popped(removed, sp + 1) + {removed[sp]}
    ensures FreeNode(edges, removed[sp], Popped(removed, sp + 1))
  {
    assert Later(removed, sp) + {} == Popped(removed, sp + 1);
    forall x | x in Popped(removed, sp + 1) + {removed[sp]}
      ensures x in Popped(removed, sp)
    {
    }
  }

  lemma PoppedEnds(removed: seq<nat>, m: nat)
    requires |removed| == m
    requires (forall e :: 0 <= e < m ==> e in removed) && forall e :: e in removed ==> e < m
    ensures Popped(removed, m) == {} && Popped(removed, 0) == Below(m)
  {
    forall e | e in Below(m)
      ensures e in Popped(removed, 0)
    {
      assert e in removed;
      var i :| 0 <= i < m && removed[i] == e;
    }
    forall e | e in Popped(removed, 0)
      ensures e in Below(m)
    {
      assert e in removed;
    }
  }

  lemma StartAssigned(vals: seq<int>, edges: seq<seq<nat>>, m: nat, n: nat, d: nat)
    requires m > 0 && |vals| == n && EdgesOk(edges, n, d) && forall v :: 0 <= v < |vals| ==> vals[v] == -1
    ensures Assigned(vals, edges, {}, m)
  {
  }

  /** The edges peeled from position sp on have been popped and their sums are complete. */
  ghost predicate Assigning(gp: Graph, removed: seq<nat>)
    reads gp`edges, gp`sp, gp.stack, gp.first
  {
    && gp.Shape() && Loopless(gp.edges) && gp.sp <= |removed| == gp.numEdges
    && PeelOrder(gp.edges, removed, {})
    && (forall k :: 0 <= k < |removed| ==> gp.stack[k] == removed[k] < gp.numEdges)
    && Assigned(gp.first[..], gp.edges, Popped(removed, gp.sp), gp.numEdges)
  }

  /** Pops one edge and completes its sum. */
  method PopEdge(gp: Graph, ghost removed: seq<nat>)
    requires Assigning(gp, removed) && gp.sp > 0
    modifies gp.first, gp`sp
    ensures Assigning(gp, removed) && gp.sp == old(gp.sp) - 1
  {
    hide Assigned;
    hide Loopless;
    hide PeelOrder;
    hide FreeNode;
    hide EdgesOk;
    gp.sp := gp.sp - 1;
    var e := gp.stack[gp.sp];
    PopOne(gp.edges, removed, gp.sp);
    AssignEdge(gp, e, Popped(removed, gp.sp + 1));
  }

  /** assign: pops the edges, the one peeled last first, and completes each sum. */
  method Assign(gp: Graph)
    requires gp.Peeling() && Loopless(gp.edges) && gp.present == {} && gp.sp == gp.numEdges > 0
    modifies gp.first, gp`sp
    ensures Assigned(gp.first[..], gp.edges, Below(gp.numEdges), gp.numEdges) && gp.Shape()
  {
    ghost var removed := gp.removed;
    FullyPeeled(gp);
    hide Graph.Peeling;
    hide PeelOrder;
    hide Loopless;
    ResetValues(gp);
    StartAssigned(gp.first[..], gp.edges, gp.numEdges, gp.numNodes, gp.edgeDim);
    hide Assigned;
    hide Popped;
    hide EdgesOk;
    assert Assigning(gp, removed);
    for i := 0 to gp.numEdges
      invariant gp.sp == gp.numEdges - i && Assigning(gp, removed)
    {
      PopEdge(gp, removed);
    }
  }

  /** What a peeling that left no edge says about the stack. */
  lemma FullyPeeled(gp: Graph)
    requires gp.Peeling() && gp.present == {} && gp.sp == gp.numEdges
    ensures gp.Shape() && |gp.removed| == gp.numEdges && PeelOrder(gp.edges, gp.removed, {})
    ensures forall k :: 0 <= k < |gp.removed| ==> gp.stack[k] == gp.removed[k] < gp.numEdges
    ensures Popped(gp.removed, gp.numEdges) == {} && Popped(gp.removed, 0) == Below(gp.numEdges)
  {
    assert forall k :: 0 <= k < |gp.removed| ==> gp.removed[k] in gp.removed;
    PoppedEnds(gp.removed, gp.numEdges);
  }

  /** Marks every node as unset, overwriting the heads of the lists. */
  method ResetValues(gp: Graph)
    requires gp.Shape()
    modifies gp.first
    ensures forall v :: 0 <= v < gp.numNodes ==> gp.first[v] == -1
  {
    for v := 0 to gp.numNodes
      invariant forall u :: 0 <= u < v ==> gp.first[u] == -1
    {
      gp.first[v] := -1;
    }
  }

  // ---------------------------------------------------------------- the hash

  /** The value of a key: the sum of the values of its nodes modulo m. */
  function Hash(p: Params, m: nat, vals: seq<int>, key: Key): int
    requires ParamsOk(p) && KeyOk(p, key) && m > 0 && |vals| == p.n
  {
    NodesInRange(Nodes(p, key), p.n);
    CRem(ValueSum(vals, Nodes(p, key)), m)
  }

  lemma NodesInRange(nodes: seq<nat>, n: nat)
    requires forall v :: v in nodes ==> v < n
    ensures forall j :: 0 <= j < |nodes| ==> nodes[j] < n
  {
    forall j | 0 <= j < |nodes|
      ensures nodes[j] < n
    {
      assert nodes[j] in nodes;
    }
  }

  /** Every key hashes to its own place in the input, and sees no node without a value. */
  ghost predicate Perfect(p: Params, keys: seq<Key>, vals: seq<int>) {
    && ParamsOk(p) && KeysOk(p, keys) && |vals| == p.n
    && (forall v :: 0 <= v < |vals| ==> -1 <= vals[v] < |keys|)
    && (forall e, v :: 0 <= e < |keys| && v in Nodes(p, keys[e]) ==> vals[v] >= 0)
    && forall e :: 0 <= e < |keys| ==> Hash(p, |keys|, vals, keys[e]) == e
  }

  lemma PerfectHashes(p: Params, keys: seq<Key>, vals: seq<int>)
    requires Perfect(p, keys, vals)
    ensures forall e :: 0 <= e < |keys| ==> Hash(p, |keys|, vals, keys[e]) == e
  {
  }

  ghost function Image(p: Params, keys: seq<Key>, vals: seq<int>): set<int>
    requires ParamsOk(p) && KeysOk(p, keys) && keys != [] && |vals| == p.n
  {
    set e | 0 <= e < |keys| :: Hash(p, |keys|, vals, keys[e])
  }

  /** A perfect hash maps the keys, none of which repeats, one to one onto 0..m-1. */
  lemma PerfectIsBijection(p: Params, keys: seq<Key>, vals: seq<int>)
    requires Perfect(p, keys, vals) && keys != []
    ensures forall e, f :: 0 <= e < f < |keys| ==>
      keys[e] != keys[f] && Hash(p, |keys|, vals, keys[e]) != Hash(p, |keys|, vals, keys[f])
    ensures Image(p, keys, vals) == Below(|keys|)
  {
    hide Hash;
    forall e, f | 0 <= e < f < |keys|
      ensures keys[e] != keys[f] && Hash(p, |keys|, vals, keys[e]) != Hash(p, |keys|, vals, keys[f])
    {
      assert Hash(p, |keys|, vals, keys[e]) == e && Hash(p, |keys|, vals, keys[f]) == f;
    }
    forall x | x in Below(|keys|)
      ensures x in Image(p, keys, vals)
    {
      assert Hash(p, |keys|, vals, keys[x]) == x;
    }
  }

  lemma {:induction false} SumNonNegative(vals: seq<int>, nodes: seq<nat>)
    requires forall j :: 0 <= j < |nodes| ==> nodes[j] < |vals| && vals[nodes[j]] >= 0
    ensures ValueSum(vals, nodes) >= 0
  {
    if nodes != [] {
      SumNonNegative(vals, nodes[..|nodes| - 1]);
    }
  }

  /** Values assigned to all edges make the hash perfect. Nodes that no key touches keep
      the value -1, but no key sees one of them. */
  lemma AssignedIsPerfect(p: Params, keys: seq<Key>, edges: seq<seq<nat>>, vals: seq<int>)
    requires ParamsOk(p) && KeysOk(p, keys) && |vals| == p.n && edges == EdgesOf(p, keys)
    requires Assigned(vals, edges, Below(|keys|), |keys|)
    ensures Perfect(p, keys, vals)
  {
    hide Nodes;
    forall e, v | 0 <= e < |keys| && v in edges[e]
      ensures vals[v] >= 0
    {
      assert e in Below(|keys|);
      assert Touches(edges, e, v);
    }
    forall e | 0 <= e < |keys|
      ensures Hash(p, |keys|, vals, keys[e]) == e
    {
      assert e in Below(|keys|);
      NodesInRange(edges[e], p.n);
      forall j | 0 <= j < |edges[e]|
        ensures vals[edges[e][j]] >= 0
      {
        assert Touches(edges, e, edges[e][j]);
      }
      SumNonNegative(vals, edges[e]);
    }
  }

  /** The hyperedge of every key, in input order. */
  ghost function EdgesOf(p: Params, keys: seq<Key>): (edges: seq<seq<nat>>)
    requires ParamsOk(p) && KeysOk(p, keys)
    ensures |edges| == |keys| && forall e :: 0 <= e < |keys| ==> edges[e] == Nodes(p, keys[e])
  {
    if keys == [] then []
    else
      var k := |keys| - 1;
      EdgesOf(p, keys[..k]) + [Nodes(p, keys[k])]
  }

  /** verify: recomputes the hash of every key; ok stands for its assertion. */
  method Verify(p: Params, keys: seq<Key>, gp: Graph) returns (ok: bool)
    requires ParamsOk(p) && KeysOk(p, keys) && gp.first.Length == p.n
    ensures ok <==> forall e :: 0 <= e < |keys| ==> Hash(p, |keys|, gp.first[..], keys[e]) == e
  {
    hide Nodes;
    ghost var vals := gp.first[..];
    for i := 0 to |keys|
      invariant forall e :: 0 <= e < i ==> Hash(p, |keys|, vals, keys[e]) == e
    {
      var f := Ff(p, keys[i]);
      NodesInRange(f, p.n);
      var h := 0;
      for j := 0 to p.d
        invariant h == ValueSum(vals, f[..j])
      {
        SumMore(vals, f, j);
        h := h + gp.first[f[j]];
      }
      assert f[..p.d] == f;
      if CRem(h, |keys|) != i {
        return false;
      }
    }
    ok := true;
  }

  /** One round of map, followed by assign and verify: it succeeds exactly when no key maps
      to a loop and no set of keys forms a core, the hash is then perfect, and verify's
      assertion cannot fail. */
  method Build(p: Params, keys: seq<Key>) returns (r: Option<seq<int>>)
    requires ParamsOk(p) && KeysOk(p, keys) && |keys| > 0
    ensures r.Some? <==>
      (forall e :: 0 <= e < |keys| ==> !HasLoop(Nodes(p, keys[e]))) && forall core :: !TwoCore(EdgesOf(p, keys), core)
    ensures r.Some? ==> Perfect(p, keys, r.value)
  {
    hide TwoCore;
    hide Nodes;
    hide Assigned;
    hide Perfect;
    var gp := new Graph(p.n, |keys|, p.d);
    var ok := GenEdges(p, keys, gp);
    if !ok {
      return None;
    }
    assert gp.edges == EdgesOf(p, keys);
    NoLoops(gp.edges, p.n, p.d);
    var cyclic := gp.GrCyclic();
    if cyclic {
      return None;
    }
    Assign(gp);
    AssignedIsPerfect(p, keys, gp.edges, gp.first[..]);
    var verified := Verify(p, keys, gp);
    PerfectHashes(p, keys, gp.first[..]);
    assert verified;
    r := Some(gp.first[..]);
  }

  /** Repeated keys never build. */
  lemma DuplicateKeysFail(p: Params, keys: seq<Key>, vals: seq<int>, i: nat, j: nat)
    requires ParamsOk(p) && KeysOk(p, keys) && i < j < |keys| && keys[i] == keys[j]
    ensures !Perfect(p, keys, vals)
    ensures TwoCore(EdgesOf(p, keys), {i, j})
  {
    hide Nodes;
    hide Hash;
    var edges := EdgesOf(p, keys);
    forall e, v {:trigger Shared(edges, {i, j}, e, v)} | e in {i, j} && v in edges[e]
      ensures Shared(edges, {i, j}, e, v)
    {
      assert Touches(edges, i + j - e, v);
    }
    if Perfect(p, keys, vals) {
      PerfectIsBijection(p, keys, vals);
    }
  }
}
