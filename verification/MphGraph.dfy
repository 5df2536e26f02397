/**
 The hypergraph of the minimal perfect hash generator: adjacency lists threaded
 through first[] and next[], edge deletion in place, and the peeling of nodes of
 degree one onto a stack.
 */
module MphGraph {
  import opened Bits

  // ---------------------------------------------------------------- edges and half-edges

  /** Edge e joins edges[e][0..d-1]; half-edge e + i*m is its i-th end. */
  ghost predicate EdgesOk(edges: seq<seq<nat>>, n: nat, d: nat) {
    forall e :: 0 <= e < |edges| ==> |edges[e]| == d && forall i :: 0 <= i < d ==> edges[e][i] < n
  }

  function Half(m: nat, e: nat, i: nat): nat {
    e + i * m
  }

  lemma HalfParts(m: nat, e: nat, i: nat, d: nat)
    requires e < m && i < d
    ensures Half(m, e, i) % m == e && Half(m, e, i) / m == i && Half(m, e, i) < d * m
  {
    MulComm(i, m);
    DivModUnique(Half(m, e, i), m, i, e);
    MulLe(m, i + 1, d);
  }

  /** The node at which a half-edge hangs. */
  function NodeOf(edges: seq<seq<nat>>, h: nat): int {
    if |edges| == 0 || h / |edges| < 0 || h / |edges| >= |edges[h % |edges|]| then -1
    else edges[h % |edges|][h / |edges|]
  }

  /** Edge f touches node v. */
  ghost predicate Touches(edges: seq<seq<nat>>, f: nat, v: nat) {
    f < |edges| && v in edges[f]
  }

  /** Some node of e is touched by no edge of rest. */
  ghost predicate FreeNode(edges: seq<seq<nat>>, e: nat, rest: set<nat>) {
    e < |edges| && exists v :: v in edges[e] && forall f :: f in rest ==> !Touches(edges, f, v)
  }

  /** A non-empty set of edges in which every touched node lies on two of them. */
  ghost predicate TwoCore(edges: seq<seq<nat>>, core: set<nat>) {
    && core != {}
    && (forall e :: e in core ==> e < |edges|)
    && forall e, v {:trigger Shared(edges, core, e, v)} :: e in core && v in edges[e] ==> Shared(edges, core, e, v)
  }

  /** Node v of edge e lies on a second edge of the set. */
  ghost predicate Shared(edges: seq<seq<nat>>, es: set<nat>, e: nat, v: nat) {
    exists f :: f in es && f != e && Touches(edges, f, v)
  }

  ghost predicate Loopless(edges: seq<seq<nat>>) {
    forall e :: 0 <= e < |edges| ==> forall i, j :: 0 <= i < j < |edges[e]| ==> edges[e][i] != edges[e][j]
  }

  /** Each stacked edge had a free node among the edges still present after it. */
  ghost predicate PeelOrder(edges: seq<seq<nat>>, removed: seq<nat>, rest: set<nat>) {
    forall p :: 0 <= p < |removed| ==> FreeNode(edges, removed[p], Later(removed, p) + rest)
  }

  ghost function Later(removed: seq<nat>, p: nat): set<nat>
    requires p < |removed|
  {
    set i | p < i < |removed| :: removed[i]
  }

  /** An edge with a node all to itself belongs to no core. */
  lemma CoreAvoids(edges: seq<seq<nat>>, core: set<nat>, e: nat, v: nat, rest: set<nat>)
    requires TwoCore(edges, core) && core <= rest && e < |edges| && v in edges[e]
    requires forall g :: g in rest - {e} ==> !Touches(edges, g, v)
    ensures e !in core
  {
    var shared := Shared(edges, core, e, v);
    if e in core {
      assert false;
    }
  }

  lemma PeelAppend(edges: seq<seq<nat>>, removed: seq<nat>, rest: set<nat>, e: nat)
    requires PeelOrder(edges, removed, rest) && e in rest && FreeNode(edges, e, rest - {e})
    ensures PeelOrder(edges, removed + [e], rest - {e})
  {
    forall p | 0 <= p < |removed + [e]|
      ensures FreeNode(edges, (removed + [e])[p], Later(removed + [e], p) + (rest - {e}))
    {
      if p < |removed| {
        LaterAppend(removed, p, e);
        assert Later(removed, p) + {e} + (rest - {e}) == Later(removed, p) + rest;
      } else {
        assert Later(removed + [e], p) == {};
        assert Later(removed + [e], p) + (rest - {e}) == rest - {e};
      }
    }
  }

  lemma LaterAppend(removed: seq<nat>, p: nat, e: nat)
    requires p < |removed|
    ensures Later(removed + [e], p) == Later(removed, p) + {e}
  {
    var more := removed + [e];
    forall x | x in Later(removed, p) + {e}
      ensures x in Later(more, p)
    {
      if x == e {
        assert more[|removed|] == e;
      } else {
        var i :| p < i < |removed| && removed[i] == x;
        assert more[i] == x;
      }
    }
  }

  // ---------------------------------------------------------------- lists

  function Without(list: seq<nat>, k: nat): seq<nat>
    requires k < |list|
  {
    list[..k] + list[k + 1..]
  }

  ghost predicate NoRepeats(list: seq<nat>) {
    forall j, k :: 0 <= j < k < |list| ==> list[j] != list[k]
  }

  lemma WithoutMembers(list: seq<nat>, idx: nat)
    requires NoRepeats(list) && idx < |list|
    ensures forall x :: x in Without(list, idx) <==> x in list && x != list[idx]
  {
    var shorter := Without(list, idx);
    assert forall k :: 0 <= k < |list| && k != idx ==> shorter[if k < idx then k else k - 1] == list[k];
  }

  /** The link stored with element k: its successor, or -1 at the end. */
  function Successor(list: seq<nat>, k: nat): int {
    if k + 1 < |list| then list[k + 1] else -1
  }

  /** The next links run through the list and end with -1. */
  ghost predicate Chain(next: seq<int>, list: seq<nat>) {
    forall k :: 0 <= k < |list| ==> list[k] < |next| && next[list[k]] == Successor(list, k)
  }

  /** Elements and successors after one element has been taken out. */
  lemma WithoutAt(list: seq<nat>, idx: nat, k: nat)
    requires idx < |list| && k + 1 < |list|
    ensures Without(list, idx)[k] == list[if k < idx then k else k + 1]
    ensures Successor(Without(list, idx), k) == Successor(list, if k + 1 < idx then k else k + 1)
  {
  }

  lemma NoRepeatsWithout(list: seq<nat>, idx: nat)
    requires NoRepeats(list) && idx < |list|
    ensures NoRepeats(Without(list, idx))
  {
    var shorter := Without(list, idx);
    forall j, k | 0 <= j < k < |shorter|
      ensures shorter[j] != shorter[k]
    {
      WithoutAt(list, idx, j);
      WithoutAt(list, idx, k);
    }
  }

  lemma ChainUnlink(next: seq<int>, list: seq<nat>, idx: nat)
    requires Chain(next, list) && NoRepeats(list) && idx < |list|
    ensures idx == 0 ==> Chain(next, Without(list, idx))
    ensures idx > 0 ==> Chain(next[list[idx - 1] := next[list[idx]]], Without(list, idx))
  {
    hide Successor;
    hide Without;
    var shorter := Without(list, idx);
    var next' := if idx == 0 then next else next[list[idx - 1] := next[list[idx]]];
    assert |shorter| == |list| - 1 by {
      WithoutLength(list, idx);
    }
    forall k | 0 <= k < |shorter|
      ensures shorter[k] < |next'| && next'[shorter[k]] == Successor(shorter, k)
    {
      WithoutAt(list, idx, k);
      var j := if k < idx then k else k + 1;
      assert idx > 0 && j != idx - 1 ==> list[j] != list[idx - 1];
    }
    assert Chain(next', shorter);
  }

  lemma WithoutLength(list: seq<nat>, idx: nat)
    requires idx < |list|
    ensures |Without(list, idx)| == |list| - 1
  {
  }

  lemma ChainElsewhere(next: seq<int>, list: seq<nat>, x: nat, y: int)
    requires Chain(next, list) && x !in list && x < |next|
    ensures Chain(next[x := y], list)
  {
  }

  /** The half-edges of a set of edges. */
  ghost function Halves(m: nat, d: nat, es: set<nat>): set<nat> {
    set e, i | e in es && 0 <= i < d :: Half(m, e, i)
  }

  /** The half-edges of edge e with end number below i. */
  ghost function Ends(m: nat, e: nat, i: nat): set<nat> {
    set j | 0 <= j < i :: Half(m, e, j)
  }

  lemma HalvesWithout(m: nat, d: nat, es: set<nat>, e: nat)
    requires e in es && forall f :: f in es ==> f < m
    ensures Halves(m, d, es) - Ends(m, e, d) == Halves(m, d, es - {e})
  {
    var left, right := Halves(m, d, es) - Ends(m, e, d), Halves(m, d, es - {e});
    forall h | h in right
      ensures h in left
    {
      var f, i :| f in es - {e} && 0 <= i < d && h == Half(m, f, i);
      HalfParts(m, f, i, d);
      if h in Ends(m, e, d) {
        var j :| 0 <= j < d && h == Half(m, e, j);
        HalfParts(m, e, j, d);
      }
    }
    forall h | h in left
      ensures h in right
    {
      var f, i :| f in es && 0 <= i < d && h == Half(m, f, i);
    }
  }

  lemma HalfOf(m: nat, d: nat, es: set<nat>, h: nat) returns (e: nat, i: nat)
    requires h in Halves(m, d, es) && forall f :: f in es ==> f < m
    ensures e in es && i < d && h == Half(m, e, i) && m > 0 && h % m == e
  {
    e, i :| e in es && 0 <= i < d && h == Half(m, e, i);
    HalfParts(m, e, i, d);
  }

  lemma EndsMore(m: nat, e: nat, i: nat)
    ensures Ends(m, e, i + 1) == Ends(m, e, i) + {Half(m, e, i)}
  {
  }

  lemma HalfAt(edges: seq<seq<nat>>, n: nat, d: nat, e: nat, i: nat)
    requires EdgesOk(edges, n, d) && e < |edges| && i < d
    ensures NodeOf(edges, Half(|edges|, e, i)) == edges[e][i]
    ensures Half(|edges|, e, i) < d * |edges|
  {
    HalfParts(|edges|, e, i, d);
  }

  function Head(list: seq<nat>): int {
    if list == [] then -1 else list[0]
  }

  /** head and next spell out list, whose half-edges all hang at v. */
  ghost predicate ListIs(edges: seq<seq<nat>>, head: int, next: seq<int>, list: seq<nat>, v: int) {
    head == Head(list) && Chain(next, list) && NoRepeats(list) && forall h :: h in list ==> NodeOf(edges, h) == v
  }

  lemma ListUnlink(edges: seq<seq<nat>>, head: int, next: seq<int>, list: seq<nat>, v: int, idx: nat)
    requires ListIs(edges, head, next, list, v) && idx < |list|
    ensures next[list[idx]] == Successor(list, idx) && list[idx] < |next|
    ensures idx == 0 ==> ListIs(edges, next[list[idx]], next, Without(list, idx), v)
    ensures idx > 0 ==> list[idx - 1] < |next|
    ensures idx > 0 ==> ListIs(edges, head, next[list[idx - 1] := next[list[idx]]], Without(list, idx), v)
    ensures forall k :: 0 <= k < |list| ==> NodeOf(edges, list[k]) == v
  {
    ChainUnlink(next, list, idx);
    NoRepeatsWithout(list, idx);
    WithoutMembers(list, idx);
    hide Chain;
    hide NodeOf;
    hide NoRepeats;
    assert forall k :: 0 <= k < |list| ==> list[k] in list;
  }

  lemma ListElsewhere(edges: seq<seq<nat>>, head: int, next: seq<int>, list: seq<nat>, u: int, x: nat, y: int)
    requires ListIs(edges, head, next, list, u) && NodeOf(edges, x) != u && x < |next|
    ensures ListIs(edges, head, next[x := y], list, u)
  {
    ChainElsewhere(next, list, x, y);
  }

  class Graph {
    const numNodes: nat
    const numEdges: nat
    const edgeDim: nat
    var edges: seq<seq<nat>>
    const first: array<int>
    const next: array<int>
    const stack: array<int>
    var sp: nat

    /** The lists, as sequences of half-edges per node. */
    ghost var adj: seq<seq<nat>>
    /** Edges still linked, and edges on the stack. */
    ghost var present: set<nat>
    ghost var removed: seq<nat>

    ghost predicate Shape()
      reads `edges
    {
      && |edges| == numEdges && EdgesOk(edges, numNodes, edgeDim)
      && first.Length == numNodes && next.Length == edgeDim * numEdges && stack.Length == numEdges
      && first != next && first != stack && next != stack
    }

    /** The links of node v spell out adj[v]. */
    ghost predicate ListAt(v: nat)
      requires v < |adj| && v < first.Length
      reads `edges, `adj, first, next
    {
      ListIs(edges, first[v], next[..], adj[v], v)
    }

    ghost predicate Lists()
      reads `edges, `adj, first, next
    {
      Shape() && |adj| == numNodes && forall v :: 0 <= v < numNodes ==> ListAt(v)
    }

    /** Adjacency lists hold exactly the half-edges of live. */
    ghost predicate Members(live: set<nat>)
      reads `edges, `adj
    {
      forall v, h :: 0 <= v < |adj| ==> (h in adj[v] <==> h in live && NodeOf(edges, h) == v)
    }

    /** The stack holds the removed edges in order; with the present ones they are
        all edges, and each had a free node when it went. */
    ghost predicate Stacked()
      reads `edges, `sp, `removed, `present, stack
    {
      && sp == |removed| && sp <= stack.Length == numEdges
      && (forall k :: 0 <= k < sp ==> stack[k] == removed[k])
      && NoRepeats(removed)
      && (forall e :: e in present ==> e < numEdges && e !in removed)
      && (forall e :: 0 <= e < numEdges ==> e in present || e in removed)
      && (forall e :: e in removed ==> e < numEdges)
      && PeelOrder(edges, removed, present)
    }

    ghost predicate Peeling()
      reads `edges, `adj, `sp, `removed, `present, first, next, stack
    {
      Lists() && Stacked() && Members(Halves(numEdges, edgeDim, present))
    }

    /** An empty graph; the nodes of edges not yet set are taken to be 0. */
    constructor (n: nat, m: nat, d: nat)
      requires n > 0
      ensures numNodes == n && numEdges == m && edgeDim == d && Lists() && Members({})
      ensures fresh(first) && fresh(next) && fresh(stack)
    {
      numNodes, numEdges, edgeDim := n, m, d;
      edges, sp, present, removed := seq(m, _ => seq(d, _ => 0)), 0, {}, [];
      adj := seq(n, _ => []);
      first := new int[n];
      next := new int[d * m];
      stack := new int[m];
      new;
      GrDelEdges();
    }

    lemma LinkAt(v: nat, k: nat)
      requires Lists() && v < numNodes && k < |adj[v]|
      ensures v < first.Length && first[v] == Head(adj[v])
      ensures adj[v][k] < next.Length && next[adj[v][k]] == Successor(adj[v], k)
    {
      assert ListAt(v);
      hide NodeOf;
      hide EdgesOk;
      hide NoRepeats;
      assert next[..][adj[v][k]] == Successor(adj[v], k);
    }

    lemma LinksDiffer(v: nat, idx: nat)
      requires Lists() && v < numNodes && idx < |adj[v]|
      ensures forall k :: 0 <= k < idx ==> adj[v][k] != adj[v][idx]
    {
      assert ListAt(v);
    }

    /** Walks the list of v up to half-edge h; the element before it, or -1. */
    method FindPrevious(v: nat, h: nat, ghost idx: nat) returns (eprev: int)
      requires Lists() && v < numNodes && idx < |adj[v]| && adj[v][idx] == h
      ensures eprev == if idx == 0 then -1 else adj[v][idx - 1]
    {
      ghost var list := adj[v];
      hide Lists;
      LinkAt(v, 0);
      LinksDiffer(v, idx);
      eprev := -1;
      var e1 := first[v];
      ghost var k := 0;
      while e1 != h
        invariant k <= idx && e1 == list[k] && eprev == (if k == 0 then -1 else list[k - 1])
        decreases idx - k
      {
        LinkAt(v, k);
        eprev := e1;
        e1 := next[eprev];
        k := k + 1;
      }
    }

    /** Unlinks half-edge h from the list of v. */
    method DelEdge(v: nat, h: nat, ghost idx: nat)
      requires Lists() && v < numNodes && idx < |adj[v]| && adj[v][idx] == h
      modifies first, next, `adj
      ensures Lists()
      ensures adj == old(adj)[v := Without(old(adj)[v], idx)]
    {
      ghost var list, before := adj[v], next[..];
      assert ListAt(v);
      ListUnlink(edges, first[v], before, list, v, idx);
      var eprev := FindPrevious(v, h, idx);
      hide ListIs;
      if eprev < 0 {
        first[v] := next[h];
        assert next[..] == before;
      } else {
        next[eprev] := next[h];
        assert next[..] == before[eprev := before[h]];
      }
      adj := adj[v := Without(list, idx)];
      forall u | 0 <= u < numNodes
        ensures ListAt(u)
      {
        assert old(ListAt(u));
        if u != v && eprev >= 0 {
          ListElsewhere(edges, first[u], before, adj[u], u, eprev, before[h]);
        }
      }
    }

    /** Does exactly one half-edge hang at v? */
    method Degree1(v: nat) returns (b: bool)
      requires Lists() && v < numNodes
      ensures b <==> |adj[v]| == 1
    {
      assert ListAt(v);
      var e := first[v];
      assert |adj[v]| > 0 ==> next[..][adj[v][0]] == Successor(adj[v], 0);
      b := e >= 0 && next[e] < 0;
    }

    /** Deletes one end of edge e from its node's list. */
    method DelEnd(e: nat, i: nat, ghost live: set<nat>)
      requires Lists() && Members(live) && e < numEdges && i < edgeDim && Half(numEdges, e, i) in live
      modifies first, next, `adj
      ensures Lists() && Members(live - {Half(numEdges, e, i)})
      ensures forall v :: 0 <= v < numNodes && v != edges[e][i] ==> adj[v] == old(adj)[v]
      ensures |adj[edges[e][i]]| <= |old(adj)[edges[e][i]]|
    {
      var v, h := edges[e][i], Half(numEdges, e, i);
      HalfAt(edges, numNodes, edgeDim, e, i);
      ghost var idx := Locate(v, h);
      WithoutMembers(adj[v], idx);
      hide Chain;
      hide NodeOf;
      hide Half;
      DelEdge(v, h, idx);
    }

    /** Deletes edge e from the lists of all its nodes. */
    method GrDelEdge(e: nat, ghost present: set<nat>)
      requires Lists() && (forall f :: f in present ==> f < numEdges) && e in present
      requires Members(Halves(numEdges, edgeDim, present))
      modifies first, next, `adj
      ensures Lists() && Members(Halves(numEdges, edgeDim, present - {e}))
      ensures forall v :: 0 <= v < numNodes && v !in edges[e] ==> adj[v] == old(adj)[v]
      ensures forall v :: 0 <= v < numNodes ==> |adj[v]| <= |old(adj)[v]|
    {
      hide ListAt;
      hide Members;
      ghost var all := Halves(numEdges, edgeDim, present);
      assert all - Ends(numEdges, e, 0) == all;
      for i := 0 to edgeDim
        invariant Lists() && Members(all - Ends(numEdges, e, i))
        invariant forall v :: 0 <= v < numNodes && v !in edges[e] ==> adj[v] == old(adj)[v]
        invariant forall v :: 0 <= v < numNodes ==> |adj[v]| <= |old(adj)[v]|
      {
        NotYetDeleted(numEdges, edgeDim, e, i);
        EndsMore(numEdges, e, i);
        assert all - Ends(numEdges, e, i + 1) == all - Ends(numEdges, e, i) - {Half(numEdges, e, i)};
        DelEnd(e, i, all - Ends(numEdges, e, i));
      }
      HalvesWithout(numEdges, edgeDim, present, e);
    }

    lemma Locate(v: nat, h: nat) returns (idx: nat)
      requires Lists() && v < numNodes && h in adj[v]
      ensures idx < |adj[v]| && adj[v][idx] == h && NoRepeats(adj[v])
    {
      assert ListAt(v);
      idx :| 0 <= idx < |adj[v]| && adj[v][idx] == h;
    }

    /** A node with one half-edge is touched by no other present edge. */
    lemma SoleEdgeIsFree(v: nat, e: nat)
      requires Peeling() && v < numNodes && |adj[v]| == 1
      requires numEdges > 0 && e == adj[v][0] % numEdges
      ensures e in present && v in edges[e]
      ensures forall g :: g in present - {e} ==> !Touches(edges, g, v)
      ensures FreeNode(edges, e, present - {e})
    {
      var h := adj[v][0];
      assert h in adj[v];
      var f, i := HalfOf(numEdges, edgeDim, present, h);
      HalfAt(edges, numNodes, edgeDim, e, i);
      forall g | g in present && Touches(edges, g, v)
        ensures g == e
      {
        TouchLinks(v, g);
      }
    }

    /** A present edge that touches v has a half-edge in its list. */
    lemma TouchLinks(v: nat, g: nat)
      requires Peeling() && v < numNodes && g in present && Touches(edges, g, v)
      ensures numEdges > 0 && exists h :: h in adj[v] && h % numEdges == g
    {
      var j :| 0 <= j < |edges[g]| && edges[g][j] == v;
      HalfAt(edges, numNodes, edgeDim, g, j);
      HalfParts(numEdges, g, j, edgeDim);
      assert Half(numEdges, g, j) in Halves(numEdges, edgeDim, present);
      assert Half(numEdges, g, j) in adj[v];
    }

    /** Removes the only edge at v, then every edge whose node becomes the last one. */
    method CyclicDelEdge(v: nat)
      requires Peeling() && v < numNodes && |adj[v]| == 1
      modifies first, next, stack, `sp, `adj, `present, `removed
      ensures Peeling() && present < old(present) && adj[v] == []
      ensures forall u :: 0 <= u < numNodes && |adj[u]| == 1 ==> adj[u] == old(adj)[u]
      ensures forall u :: 0 <= u < numNodes && old(adj)[u] == [] ==> adj[u] == []
      ensures forall core :: TwoCore(edges, core) && core <= old(present) ==> core <= present
      decreases present
    {
      hide PeelOrder;
      hide Halves;
      hide NodeOf;
      hide TwoCore;
      hide NoRepeats;
      hide Chain;
      var e := Pop1(v);
      for i := 0 to edgeDim
        invariant Peeling() && present < old(present) && adj[v] == []
        invariant forall u :: 0 <= u < numNodes && |adj[u]| == 1 ==> adj[u] == old(adj)[u] || u in edges[e][i..]
        invariant forall u :: 0 <= u < numNodes && old(adj)[u] == [] ==> adj[u] == []
        invariant forall core :: TwoCore(edges, core) && core <= old(present) ==> core <= present
      {
        var u := edges[e][i];
        var one := Degree1(u);
        if one {
          CyclicDelEdge(u);
        }
        assert edges[e][i..] == [u] + edges[e][i + 1..];
      }
    }

    /** Deletes the only edge at v and pushes it. */
    method Pop1(v: nat) returns (e: nat)
      requires Peeling() && v < numNodes && |adj[v]| == 1
      modifies first, next, stack, `sp, `adj, `present, `removed
      ensures Peeling() && e in old(present) && present == old(present) - {e} && adj[v] == [] && e < numEdges
      ensures forall u :: 0 <= u < numNodes && u !in edges[e] ==> adj[u] == old(adj)[u]
      ensures forall u :: 0 <= u < numNodes && old(adj)[u] == [] ==> adj[u] == []
      ensures forall core :: TwoCore(edges, core) && core <= old(present) ==> core <= present
    {
      assert ListAt(v);
      var h := first[v];
      NonEmptyGraph(v);
      e := h % numEdges;
      SoleEdgeIsFree(v, e);
      RoomOnStack(removed, numEdges, e);
      PeelAppend(edges, removed, present, e);
      forall core | TwoCore(edges, core) && core <= present
        ensures core <= present - {e}
      {
        CoreAvoids(edges, core, e, v, present);
      }
      hide TwoCore;
      hide Halves;
      hide NodeOf;
      hide PeelOrder;
      hide FreeNode;
      GrDelEdge(e, present);
      Unlinked(v, present - {e});
      stack[sp] := e;
      sp := sp + 1;
      removed := removed + [e];
      present := present - {e};
    }

    lemma Unlinked(v: nat, rest: set<nat>)
      requires Lists() && Members(Halves(numEdges, edgeDim, rest)) && v < numNodes
      requires forall g :: g in rest ==> g < numEdges && !Touches(edges, g, v)
      ensures adj[v] == []
    {
      if adj[v] != [] {
        assert adj[v][0] in adj[v];
        var f, i := HalfOf(numEdges, edgeDim, rest, adj[v][0]);
        HalfAt(edges, numNodes, edgeDim, f, i);
      }
    }

    lemma NonEmptyGraph(v: nat)
      requires Peeling() && v < numNodes && |adj[v]| == 1
      ensures numEdges > 0
    {
      assert adj[v][0] in adj[v];
      var f, i := HalfOf(numEdges, edgeDim, present, adj[v][0]);
    }

    /** Peels from every node of degree one. Returns whether edges remain, and does
        so exactly when some set of edges has every touched node twice. */
    method GrCyclic() returns (cyclic: bool)
      requires Lists() && Loopless(edges)
      requires Members(Halves(numEdges, edgeDim, Below(numEdges)))
      modifies first, next, stack, `sp, `adj, `present, `removed
      ensures Peeling()
      ensures cyclic <==> exists core :: TwoCore(edges, core)
      ensures !cyclic ==> present == {} && |removed| == numEdges
    {
      hide TwoCore;
      hide PeelOrder;
      hide ListIs;
      sp, removed, present := 0, [], Below(numEdges);
      StartStack();
      for v := 0 to numNodes
        invariant Peeling()
        invariant forall u :: 0 <= u < v ==> |adj[u]| != 1
        invariant forall core :: TwoCore(edges, core) && core <= Below(numEdges) ==> core <= present
      {
        var one := Degree1(v);
        if one {
          CyclicDelEdge(v);
        }
      }
      cyclic := sp != numEdges;
      FullStack(removed, present, numEdges);
      if present != {} {
        RemainderIsCore();
      } else {
        NoCore();
      }
    }

    lemma StartStack()
      requires stack.Length == numEdges && sp == 0 && removed == [] && present == Below(numEdges)
      ensures Stacked()
    {
    }

    /** With no node of degree one left, the present edges form a core. */
    lemma RemainderIsCore()
      requires Peeling() && Loopless(edges) && present != {}
      requires forall u :: 0 <= u < numNodes ==> |adj[u]| != 1
      ensures TwoCore(edges, present)
    {
      forall e, v {:trigger Shared(edges, present, e, v)} | e in present && v in edges[e]
        ensures Shared(edges, present, e, v)
      {
        SecondEdge(e, v);
      }
    }

    /** Two half-edges at v: the second edge is the one of the two that is not e. */
    lemma SecondEdge(e: nat, v: nat)
      requires Peeling() && Loopless(edges) && e in present && v in edges[e] && |adj[v]| != 1
      ensures Shared(edges, present, e, v)
    {
      TouchLinks(v, e);
      LinksDiffer(v, 1);
      hide Stacked;
      hide Halves;
      hide Half;
      assert adj[v][0] in adj[v] && adj[v][1] in adj[v];
      hide Lists;
      hide Members;
      var f, i := LinkEnd(v, adj[v][0]);
      var g, j := LinkEnd(v, adj[v][1]);
      hide Peeling;
      assert Touches(edges, if f == e then g else f, v);
    }

    /** The edge and the end of a half-edge at v. */
    lemma LinkEnd(v: nat, h: nat) returns (f: nat, i: nat)
      requires Peeling() && v < numNodes && h in adj[v]
      ensures f in present && f < |edges| && i < |edges[f]| && edges[f][i] == v && h == Half(numEdges, f, i)
    {
      hide ListIs;
      hide PeelOrder;
      f, i := HalfOf(numEdges, edgeDim, present, h);
      HalfAt(edges, numNodes, edgeDim, f, i);
    }

    lemma NoCore()
      requires forall core :: TwoCore(edges, core) && core <= Below(numEdges) ==> core <= {}
      requires Shape()
      ensures forall core :: !TwoCore(edges, core)
    {
      forall core
        ensures !TwoCore(edges, core)
      {
        if TwoCore(edges, core) {
          CoreInRange(edges, core);
        }
      }
    }

    /** Clears every list. */
    method GrDelEdges()
      requires Shape()
      modifies first, `adj
      ensures Lists() && Members({})
    {
      adj := seq(numNodes, _ => []);
      for v := 0 to numNodes
        invariant |adj| == numNodes && forall u :: 0 <= u < numNodes ==> adj[u] == []
        invariant forall u :: 0 <= u < v ==> first[u] == -1
      {
        first[v] := -1;
      }
    }

    /** Puts half-edge h at the head of the list of v. */
    method AddEdge(v: nat, h: nat, ghost live: set<nat>)
      requires Lists() && Members(live) && v < numNodes && h < next.Length && h !in live && NodeOf(edges, h) == v
      modifies first, next, `adj
      ensures Lists() && Members(live + {h})
    {
      ghost var before, list := next[..], adj[v];
      assert h !in list;
      next[h] := first[v];
      first[v] := h;
      adj := adj[v := [h] + list];
      assert next[..] == before[h := next[h]];
      forall u | 0 <= u < numNodes
        ensures ListAt(u)
      {
        assert old(ListAt(u));
        assert h !in old(adj)[u];
        ChainElsewhere(before, old(adj)[u], h, next[h]);
        if u == v {
          ChainPush(next[..], list, h);
        }
      }
    }

    /** Links edge e, whose nodes have been set, into the lists of all its nodes. */
    method GrAddEdge(e: nat, ghost linked: set<nat>)
      requires Lists() && e < numEdges && e !in linked && (forall f :: f in linked ==> f < numEdges)
      requires Members(Halves(numEdges, edgeDim, linked))
      modifies first, next, `adj
      ensures Lists() && Members(Halves(numEdges, edgeDim, linked + {e}))
    {
      ghost var all := Halves(numEdges, edgeDim, linked);
      assert all + Ends(numEdges, e, 0) == all;
      for i := 0 to edgeDim
        invariant Lists() && Members(all + Ends(numEdges, e, i))
      {
        HalfAt(edges, numNodes, edgeDim, e, i);
        NotYetDeleted(numEdges, edgeDim, e, i);
        NotLinked(numEdges, edgeDim, linked, e, i);
        EndsMore(numEdges, e, i);
        assert all + Ends(numEdges, e, i + 1) == all + Ends(numEdges, e, i) + {Half(numEdges, e, i)};
        AddEdge(edges[e][i], Half(numEdges, e, i), all + Ends(numEdges, e, i));
      }
      HalvesWith(numEdges, edgeDim, linked, e);
    }

    /** Overwrites the nodes of an edge that is in no list. */
    method SetEdge(e: nat, nodes: seq<nat>, ghost linked: set<nat>)
      requires Lists() && e < numEdges && e !in linked && (forall f :: f in linked ==> f < numEdges)
      requires Members(Halves(numEdges, edgeDim, linked))
      requires |nodes| == edgeDim && forall v :: v in nodes ==> v < numNodes
      modifies `edges
      ensures edges == old(edges)[e := nodes]
      ensures Lists() && Members(Halves(numEdges, edgeDim, linked))
    {
      ghost var before := edges;
      ghost var live := Halves(numEdges, edgeDim, linked);
      forall h | h in live
        ensures NodeOf(before[e := nodes], h) == NodeOf(before, h)
      {
        LinkedElsewhere(before, edgeDim, linked, e, nodes, h);
      }
      EdgeReplaced(before, numNodes, edgeDim, e, nodes);
      hide NodeOf;
      hide EdgesOk;
      hide Halves;
      hide Chain;
      hide NoRepeats;
      edges := edges[e := nodes];
      forall v: nat, h: nat | v < |adj|
        ensures h in adj[v] <==> h in live && NodeOf(edges, h) == v
      {
        assert old(h in adj[v] <==> h in live && NodeOf(edges, h) == v);
      }
      forall v | 0 <= v < numNodes
        ensures ListAt(v)
      {
        assert old(ListAt(v));
      }
    }
  }

  lemma EdgeReplaced(edges: seq<seq<nat>>, n: nat, d: nat, e: nat, nodes: seq<nat>)
    requires EdgesOk(edges, n, d) && e < |edges| && |nodes| == d && forall v :: v in nodes ==> v < n
    ensures EdgesOk(edges[e := nodes], n, d)
  {
    assert forall i :: 0 <= i < |nodes| ==> nodes[i] in nodes;
  }

  /** Half-edges of other edges keep their nodes. */
  lemma LinkedElsewhere(edges: seq<seq<nat>>, d: nat, linked: set<nat>, e: nat, nodes: seq<nat>, h: nat)
    requires e < |edges| && e !in linked && h in Halves(|edges|, d, linked) && forall f :: f in linked ==> f < |edges|
    ensures NodeOf(edges[e := nodes], h) == NodeOf(edges, h)
  {
    var f, i := HalfOf(|edges|, d, linked, h);
    hide Halves;
  }

  lemma CoreInRange(edges: seq<seq<nat>>, core: set<nat>)
    requires TwoCore(edges, core)
    ensures core <= Below(|edges|)
  {
  }

  lemma ChainPush(next: seq<int>, list: seq<nat>, h: nat)
    requires Chain(next, list) && h < |next| && next[h] == (if list == [] then -1 else list[0])
    requires NoRepeats(list) && h !in list
    ensures Chain(next, [h] + list) && NoRepeats([h] + list)
  {
    var longer := [h] + list;
    forall k | 0 <= k < |longer|
      ensures longer[k] < |next| && next[longer[k]] == Successor(longer, k)
    {
      if k > 0 {
        assert longer[k] == list[k - 1] && Successor(longer, k) == Successor(list, k - 1);
      }
    }
  }

  lemma NotLinked(m: nat, d: nat, linked: set<nat>, e: nat, i: nat)
    requires e < m && i < d && e !in linked && forall f :: f in linked ==> f < m
    ensures Half(m, e, i) !in Halves(m, d, linked)
  {
    if Half(m, e, i) in Halves(m, d, linked) {
      var f, j := HalfOf(m, d, linked, Half(m, e, i));
      HalfParts(m, e, i, d);
    }
  }

  lemma HalvesWith(m: nat, d: nat, es: set<nat>, e: nat)
    ensures Halves(m, d, es + {e}) == Halves(m, d, es) + Ends(m, e, d)
  {
    var left, right := Halves(m, d, es + {e}), Halves(m, d, es) + Ends(m, e, d);
    forall h | h in right
      ensures h in left
    {
      if h in Ends(m, e, d) {
        var j :| 0 <= j < d && h == Half(m, e, j);
        assert e in es + {e};
      } else {
        var f, i :| f in es && 0 <= i < d && h == Half(m, f, i);
        assert f in es + {e};
      }
    }
  }

  /** The stack is full exactly when no edge is left. */
  lemma FullStack(removed: seq<nat>, present: set<nat>, m: nat)
    requires NoRepeats(removed)
    requires forall e :: e in present ==> e < m && e !in removed
    requires forall e :: 0 <= e < m ==> e in present || e in removed
    requires forall e :: e in removed ==> e < m
    ensures |removed| == m <==> present == {}
  {
    if present != {} {
      var e :| e in present;
      RoomOnStack(removed, m, e);
    } else {
      NoRepeatsFits(removed, Below(m));
      Covers(removed, Below(m));
    }
  }

  lemma {:induction false} Covers(s: seq<nat>, all: set<nat>)
    requires forall x :: x in all ==> x in s
    ensures |all| <= |s|
  {
    if s != [] {
      Covers(s[1..], all - {s[0]});
      if s[0] in all {
        assert |all - {s[0]}| == |all| - 1;
      } else {
        assert all - {s[0]} == all;
      }
    } else {
      assert all == {};
    }
  }

  /** All edge numbers below m. */
  ghost function Below(m: nat): (s: set<nat>)
    ensures |s| == m && forall x: nat :: x in s <==> x < m
  {
    if m == 0 then {} else Below(m - 1) + {m - 1}
  }

  lemma {:induction false} NoRepeatsFits(s: seq<nat>, bound: set<nat>)
    requires NoRepeats(s) && forall x :: x in s ==> x in bound
    ensures |s| <= |bound|
  {
    if s != [] {
      NoRepeatsFits(s[1..], bound - {s[0]});
    }
  }

  lemma RoomOnStack(removed: seq<nat>, m: nat, e: nat)
    requires NoRepeats(removed) && e < m && e !in removed && forall x :: x in removed ==> x < m
    ensures |removed| < m
  {
    NoRepeatsFits(removed, Below(m) - {e});
  }

  lemma NotYetDeleted(m: nat, d: nat, e: nat, i: nat)
    requires e < m && i < d
    ensures Half(m, e, i) !in Ends(m, e, i)
  {
    if Half(m, e, i) in Ends(m, e, i) {
      var j :| 0 <= j < i && Half(m, e, i) == Half(m, e, j);
      HalfParts(m, e, i, d);
      HalfParts(m, e, j, d);
    }
  }
}
