/**
 * The linked levels of a skip list. Nodes live in an arena and a pointer is
 * an index into it; node 0 is the head. Every node has a ghost position, a
 * number that orders the list; a new node takes one between its neighbours.
 */
module SkipLevels {
  import opened ByteKeys
  import opened Memtable

  const MAX_LEVEL := 16
  const NIL := -1

  datatype Node = Node(key: Bytes, value: Bytes, fwd: seq<int>)

  /** order lists the head and then the level-0 nodes. */
  ghost predicate Ordered(nodes: seq<Node>, pos: seq<real>, order: seq<int>) {
    && |pos| == |nodes|
    && |order| > 0 && order[0] == 0
    && (forall k :: 0 <= k < |order| ==> 0 <= order[k] < |nodes|)
    && (forall j, k :: 0 <= j < k < |order| ==> pos[order[j]] < pos[order[k]])
    && (forall j, k :: 0 < j < k < |order| ==> Rank(nodes[order[j]].key) <= Rank(nodes[order[k]].key))
  }

  ghost predicate Tall(nodes: seq<Node>, order: seq<int>, u: int, l: int) {
    u in order && 0 <= u < |nodes| && 0 <= l < |nodes[u].fwd|
  }

  /** u's pointer at level l leads to the next node that has that level, or nowhere. */
  ghost predicate Linked(nodes: seq<Node>, pos: seq<real>, order: seq<int>, u: int, l: int)
    requires Ordered(nodes, pos, order) && Tall(nodes, order, u, l)
  {
    var v := nodes[u].fwd[l];
    && (v != NIL ==> Tall(nodes, order, v, l) && pos[u] < pos[v])
    && (forall w {:trigger Tall(nodes, order, w, l)} ::
          Tall(nodes, order, w, l) && pos[u] < pos[w] ==> v != NIL && pos[v] <= pos[w])
  }

  ghost predicate AllLinked(nodes: seq<Node>, pos: seq<real>, order: seq<int>)
    requires Ordered(nodes, pos, order)
  {
    forall u, l {:trigger Tall(nodes, order, u, l)} :: Tall(nodes, order, u, l) ==> Linked(nodes, pos, order, u, l)
  }

  ghost predicate Heights(nodes: seq<Node>, order: seq<int>, level: int)
    requires |nodes| > 0
  {
    && 0 <= level <= MAX_LEVEL == |nodes[0].fwd|
    && (forall u {:trigger u in order} :: u in order && u != 0 && 0 <= u < |nodes| ==> 1 <= |nodes[u].fwd| <= level)
    && (level > 1 ==> nodes[0].fwd[level - 1] != NIL)
  }

  /** The whole invariant of a skip list. */
  ghost predicate WellFormed(nodes: seq<Node>, pos: seq<real>, order: seq<int>, level: int) {
    && Ordered(nodes, pos, order)
    && Heights(nodes, order, level)
    && AllLinked(nodes, pos, order)
  }

  ghost function Entries(nodes: seq<Node>, ids: seq<int>): (es: seq<Entry>)
    requires forall k :: 0 <= k < |ids| ==> 0 <= ids[k] < |nodes|
    ensures |es| == |ids|
    ensures forall k :: 0 <= k < |ids| ==> es[k] == Entry(nodes[ids[k]].key, nodes[ids[k]].value)
  {
    seq(|ids|, k requires 0 <= k < |ids| => Entry(nodes[ids[k]].key, nodes[ids[k]].value))
  }

  ghost function Contents(nodes: seq<Node>, pos: seq<real>, order: seq<int>): seq<Entry>
    requires Ordered(nodes, pos, order)
  {
    Entries(nodes, order[1..])
  }

  /** The entries are ordered by key. */
  lemma ContentsSorted(nodes: seq<Node>, pos: seq<real>, order: seq<int>)
    requires Ordered(nodes, pos, order)
    ensures Sorted(Contents(nodes, pos, order))
  {
    hide Rank;
    assert forall k :: 0 <= k < |order| - 1 ==> order[1..][k] == order[k + 1];
  }

  // ---- each level is the subsequence of level 0 that reaches it ----

  /** The nodes met by following the level-l pointers, from v on. */
  function Walk(nodes: seq<Node>, v: int, l: nat, fuel: nat): seq<int>
    decreases fuel
  {
    if 0 <= v < |nodes| && l < |nodes[v].fwd| && fuel > 0
    then [v] + Walk(nodes, nodes[v].fwd[l], l, fuel - 1)
    else []
  }

  ghost function Reaching(nodes: seq<Node>, ids: seq<int>, l: nat): seq<int>
    requires forall k :: 0 <= k < |ids| ==> 0 <= ids[k] < |nodes|
  {
    if ids == [] then []
    else if l < |nodes[ids[0]].fwd| then [ids[0]] + Reaching(nodes, ids[1..], l)
    else Reaching(nodes, ids[1..], l)
  }

  lemma {:induction false} ReachingSkips(nodes: seq<Node>, order: seq<int>, j: int, k: int, l: nat)
    requires 0 <= j <= k <= |order|
    requires forall k :: 0 <= k < |order| ==> 0 <= order[k] < |nodes|
    requires forall m :: j <= m < k ==> !(l < |nodes[order[m]].fwd|)
    ensures Reaching(nodes, order[j..], l) == Reaching(nodes, order[k..], l)
    decreases k - j
  {
    if j < k {
      assert order[j..][1..] == order[j + 1..];
      ReachingSkips(nodes, order, j + 1, k, l);
    }
  }

  /** Where u's pointer at level l leads, as an index into the order. */
  lemma NextAt(nodes: seq<Node>, pos: seq<real>, order: seq<int>, j: int, l: nat) returns (k: int)
    requires Ordered(nodes, pos, order) && AllLinked(nodes, pos, order)
    requires 0 <= j < |order| && l < |nodes[order[j]].fwd|
    ensures j < k <= |order|
    ensures nodes[order[j]].fwd[l] == if k < |order| then order[k] else NIL
    ensures k < |order| ==> l < |nodes[order[k]].fwd|
    ensures forall m :: j < m < k ==> !(l < |nodes[order[m]].fwd|)
  {
    hide Rank;
    var u := order[j];
    assert Tall(nodes, order, u, l);
    assert Linked(nodes, pos, order, u, l);
    var v := nodes[u].fwd[l];
    k := |order|;
    if v != NIL {
      k :| 0 <= k < |order| && order[k] == v;
    }
    forall m | j < m < k ensures !(l < |nodes[order[m]].fwd|) {
      assert !Tall(nodes, order, order[m], l);
    }
  }

  lemma {:induction false} WalkFrom(nodes: seq<Node>, pos: seq<real>, order: seq<int>, j: int, l: nat, fuel: nat)
    requires Ordered(nodes, pos, order) && AllLinked(nodes, pos, order)
    requires forall k :: 0 <= k < |order| ==> 0 <= order[k] < |nodes|
    requires 0 <= j < |order| && l < |nodes[order[j]].fwd| && fuel >= |order| - j
    ensures Walk(nodes, order[j], l, fuel) == Reaching(nodes, order[j..], l)
    decreases |order| - j
  {
    hide Ordered, AllLinked;
    var k := NextAt(nodes, pos, order, j, l);
    assert order[j..][1..] == order[j + 1..];
    ReachingSkips(nodes, order, j + 1, k, l);
    if k < |order| {
      WalkFrom(nodes, pos, order, k, l, fuel - 1);
    } else {
      assert order[k..] == [];
    }
  }

  /** Walking level l from the head visits exactly the level-0 nodes tall enough, in level-0 order; at level 0, all. */
  lemma LevelIsSubsequence(nodes: seq<Node>, pos: seq<real>, order: seq<int>, level: int, l: nat)
    requires WellFormed(nodes, pos, order, level) && l < MAX_LEVEL
    ensures Walk(nodes, 0, l, |nodes| + |order|) == Reaching(nodes, order, l)
    ensures l == 0 ==> Walk(nodes, 0, l, |nodes| + |order|) == order
  {
    assert order[0..] == order;
    WalkFrom(nodes, pos, order, 0, l, |nodes| + |order|);
    if l == 0 {
      forall k | 0 <= k < |order| ensures |nodes[order[k]].fwd| > 0 {
        assert order[k] in order;
      }
      BottomHasAll(nodes, order);
    }
  }

  /** Level 0 is the whole list. */
  lemma {:induction false} BottomHasAll(nodes: seq<Node>, ids: seq<int>)
    requires forall k :: 0 <= k < |ids| ==> 0 <= ids[k] < |nodes| && |nodes[ids[k]].fwd| > 0
    ensures Reaching(nodes, ids, 0) == ids
  {
    if ids != [] {
      BottomHasAll(nodes, ids[1..]);
    }
  }

  // ---- searching ----

  /** u precedes every key >= k. */
  ghost predicate Early(nodes: seq<Node>, u: int, k: Bytes)
    requires 0 <= u < |nodes|
  {
    u == 0 || Rank(nodes[u].key) < Rank(k)
  }

  /** u is the last node of level l that precedes k. */
  ghost predicate Cut(nodes: seq<Node>, order: seq<int>, u: int, l: int, k: Bytes) {
    && Tall(nodes, order, u, l)
    && Early(nodes, u, k)
    && (var v := nodes[u].fwd[l]; v != NIL ==> 0 < v < |nodes| && !Early(nodes, v, k))
  }

  /** Being early is closed downwards. */
  lemma EarlyDown(nodes: seq<Node>, pos: seq<real>, order: seq<int>, i: int, j: int, k: Bytes)
    requires Ordered(nodes, pos, order) && 0 <= i <= j < |order| && Early(nodes, order[j], k)
    ensures Early(nodes, order[i], k)
  {
    hide Rank;
    assert 0 < j ==> pos[order[0]] < pos[order[j]];
  }

  /** Early nodes come first. */
  lemma EarlyFirst(nodes: seq<Node>, pos: seq<real>, order: seq<int>, u: int, v: int, k: Bytes)
    requires Ordered(nodes, pos, order) && u in order && v in order
    requires Early(nodes, u, k) && !Early(nodes, v, k)
    ensures pos[u] < pos[v]
  {
    var i :| 0 <= i < |order| && order[i] == u;
    var j :| 0 <= j < |order| && order[j] == v;
    if j <= i {
      EarlyDown(nodes, pos, order, j, i, k);
      assert false;
    }
  }

  /** A cut at level 0 splits the list where a linear scan for k would stop. */
  lemma CutSplits(nodes: seq<Node>, pos: seq<real>, order: seq<int>, j: int, k: Bytes)
    requires Ordered(nodes, pos, order) && AllLinked(nodes, pos, order)
    requires forall u {:trigger u in order} :: u in order && 0 <= u < |nodes| ==> |nodes[u].fwd| > 0
    requires 0 <= j < |order| && Cut(nodes, order, order[j], 0, k)
    ensures nodes[order[j]].fwd[0] == if j + 1 < |order| then order[j + 1] else NIL
    ensures forall m :: 0 <= m <= j ==> Early(nodes, order[m], k)
    ensures forall m :: j < m < |order| ==> !Early(nodes, order[m], k)
  {
    hide Rank;
    assert order[j] in order;
    var n := NextAt(nodes, pos, order, j, 0);
    assert j + 1 < |order| ==> order[j + 1] in order;
    forall m | 0 <= m <= j ensures Early(nodes, order[m], k) {
      EarlyDown(nodes, pos, order, m, j, k);
    }
    forall m | j < m < |order| ensures !Early(nodes, order[m], k) {
      if Early(nodes, order[m], k) {
        EarlyDown(nodes, pos, order, j + 1, m, k);
        assert false;
      }
    }
  }
}
