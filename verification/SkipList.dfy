/** skiplist.go: the memtable's index, updated in place, for any choice of random levels. */
module SkipList {
  import opened Wrappers
  import opened ByteKeys
  import opened Memtable
  import opened SkipLevels
  import opened SkipSplices

  // ---- one pointer store ----

  function SetForward(nodes: seq<Node>, u: int, l: int, v: int): (r: seq<Node>)
    requires 0 <= u < |nodes| && 0 <= l < |nodes[u].fwd|
    ensures |r| == |nodes| && r[u].key == nodes[u].key && r[u].value == nodes[u].value
    ensures |r[u].fwd| == |nodes[u].fwd| && r[u].fwd[l] == v
    ensures forall m :: 0 <= m < |nodes[u].fwd| && m != l ==> r[u].fwd[m] == nodes[u].fwd[m]
    ensures forall w :: 0 <= w < |nodes| && w != u ==> r[w] == nodes[w]
  {
    nodes[u := nodes[u].(fwd := nodes[u].fwd[l := v])]
  }

  /** The first i levels of the new node are linked in. */
  ghost predicate Splicing(nodes: seq<Node>, nodes2: seq<Node>, upd: seq<int>, h: int, i: int) {
    && 0 <= i <= h <= |upd|
    && |nodes2| == |nodes| + 1
    && |nodes2[|nodes|].fwd| == h
    && (forall l {:trigger upd[l]} :: 0 <= l < h ==> 0 <= upd[l] < |nodes| && l < |nodes[upd[l]].fwd|)
    && (forall l :: 0 <= l < i ==> nodes2[|nodes|].fwd[l] == nodes[upd[l]].fwd[l])
    && (forall u :: 0 <= u < |nodes| ==> Rewired(nodes, nodes2, upd, i, u))
  }

  lemma SplicingStep(nodes: seq<Node>, nodes2: seq<Node>, upd: seq<int>, h: int, i: int)
    requires Splicing(nodes, nodes2, upd, h, i) && i < h
    ensures |nodes2| > upd[i] >= 0 && i < |nodes2[upd[i]].fwd|
    ensures var p := |nodes|;
            var n1 := SetForward(nodes2, p, i, nodes2[upd[i]].fwd[i]);
            && 0 <= upd[i] < |n1| && i < |n1[upd[i]].fwd|
            && Splicing(nodes, SetForward(n1, upd[i], i, p), upd, h, i + 1)
  {
    hide SetForward;
    var p := |nodes|;
    assert Rewired(nodes, nodes2, upd, i, upd[i]);
    var n1 := SetForward(nodes2, p, i, nodes2[upd[i]].fwd[i]);
    var n2 := SetForward(n1, upd[i], i, p);
    var i1 := i + 1;
    forall u | 0 <= u < p ensures Rewired(nodes, n2, upd, i1, u) {
      assert Rewired(nodes, nodes2, upd, i, u);
      forall l | 0 <= l < |nodes[u].fwd|
        ensures n2[u].fwd[l] == if l < i + 1 && u == upd[l] then p else nodes[u].fwd[l]
      {
        assert nodes2[u].fwd[l] == if l < i && u == upd[l] then p else nodes[u].fwd[l];
      }
    }
  }

  /** Bypassing the first i levels of d. */
  ghost predicate Bypassing(nodes: seq<Node>, nodes2: seq<Node>, upd: seq<int>, d: int, i: int) {
    && |nodes2| == |nodes| && 0 <= d < |nodes| && 0 <= i <= |nodes[d].fwd| <= |upd|
    && nodes2[d] == nodes[d]
    && (forall u :: 0 <= u < |nodes| ==> PartlyDetoured(nodes, nodes2, upd, d, i, u))
  }

  ghost predicate PartlyDetoured(nodes: seq<Node>, nodes2: seq<Node>, upd: seq<int>, d: int, i: int, u: int)
    requires 0 <= u < |nodes| == |nodes2| && 0 <= d < |nodes| && i <= |nodes[d].fwd| <= |upd|
  {
    && nodes2[u].key == nodes[u].key && nodes2[u].value == nodes[u].value
    && |nodes2[u].fwd| == |nodes[u].fwd|
    && (forall l {:trigger nodes2[u].fwd[l]} {:trigger nodes[u].fwd[l]} :: 0 <= l < |nodes[u].fwd| ==>
          nodes2[u].fwd[l] == if l < i && u == upd[l] then nodes[d].fwd[l] else nodes[u].fwd[l])
  }

  lemma BypassingStep(nodes: seq<Node>, nodes2: seq<Node>, upd: seq<int>, d: int, i: int)
    requires Bypassing(nodes, nodes2, upd, d, i) && i < |nodes[d].fwd|
    requires 0 <= upd[i] < |nodes| && upd[i] != d && i < |nodes[upd[i]].fwd|
    ensures i < |nodes2[upd[i]].fwd| && nodes2[upd[i]].fwd[i] == nodes[upd[i]].fwd[i]
    ensures Bypassing(nodes, SetForward(nodes2, upd[i], i, nodes2[d].fwd[i]), upd, d, i + 1)
  {
    hide SetForward;
    assert PartlyDetoured(nodes, nodes2, upd, d, i, upd[i]);
    var n2 := SetForward(nodes2, upd[i], i, nodes2[d].fwd[i]);
    var i1 := i + 1;
    forall u | 0 <= u < |nodes| ensures PartlyDetoured(nodes, n2, upd, d, i1, u) {
      assert PartlyDetoured(nodes, nodes2, upd, d, i, u);
      forall l | 0 <= l < |nodes[u].fwd|
        ensures n2[u].fwd[l] == if l < i + 1 && u == upd[l] then nodes[d].fwd[l] else nodes[u].fwd[l]
      {
        assert nodes2[u].fwd[l] == if l < i && u == upd[l] then nodes[d].fwd[l] else nodes[u].fwd[l];
      }
    }
  }

  lemma BypassingDone(nodes: seq<Node>, nodes2: seq<Node>, upd: seq<int>, d: int)
    requires 0 <= d < |nodes| && Bypassing(nodes, nodes2, upd, d, |nodes[d].fwd|)
    ensures Bypassed(nodes, nodes2, upd, d)
  {
    forall u | 0 <= u < |nodes| ensures Detoured(nodes, nodes2, upd, d, u) {
      assert PartlyDetoured(nodes, nodes2, upd, d, |nodes[d].fwd|, u);
    }
  }

  // ---- what a descent establishes ----

  /** The levels above the tallest node are empty. */
  lemma HeadAbove(nodes: seq<Node>, pos: seq<real>, order: seq<int>, level: int, l: int)
    requires WellFormed(nodes, pos, order, level) && level <= l < MAX_LEVEL
    ensures Tall(nodes, order, 0, l) && nodes[0].fwd[l] == NIL
  {
    hide Rank;
    assert Tall(nodes, order, 0, l);
    assert Linked(nodes, pos, order, 0, l);
  }

  lemma CutAtHead(nodes: seq<Node>, pos: seq<real>, order: seq<int>, level: int, l: int, k: Bytes)
    requires WellFormed(nodes, pos, order, level) && level <= l < MAX_LEVEL
    ensures Cut(nodes, order, 0, l, k)
  {
    HeadAbove(nodes, pos, order, level, l);
  }

  lemma HeadIsFirst(nodes: seq<Node>, pos: seq<real>, order: seq<int>, level: int, k: Bytes)
    requires WellFormed(nodes, pos, order, level)
    ensures |order| > 0 && order[0] == 0 && 0 < |nodes| && Early(nodes, 0, k)
    ensures 0 <= level <= MAX_LEVEL == |nodes[0].fwd|
  {
  }

  lemma LevelInRange(nodes: seq<Node>, pos: seq<real>, order: seq<int>, level: int)
    requires WellFormed(nodes, pos, order, level)
    ensures 0 <= level <= MAX_LEVEL
  {
  }

  lemma AllTall(nodes: seq<Node>, pos: seq<real>, order: seq<int>, level: int)
    requires WellFormed(nodes, pos, order, level)
    ensures forall u {:trigger u in order} :: u in order && 0 <= u < |nodes| ==> |nodes[u].fwd| > 0
  {
  }

  /** A cut at level 0 splits the contents where a linear scan would. */
  lemma CutContents(nodes: seq<Node>, pos: seq<real>, order: seq<int>, level: int, j: int, k: Bytes)
    requires WellFormed(nodes, pos, order, level)
    requires 0 <= j < |order| && Cut(nodes, order, order[j], 0, k)
    ensures forall k :: 0 <= k < |order| ==> 0 <= order[k] < |nodes|
    ensures Contents(nodes, pos, order) == Entries(nodes, order[1..j + 1]) + Entries(nodes, order[j + 1..])
    ensures Split(Entries(nodes, order[1..j + 1]), Entries(nodes, order[j + 1..]), k)
    ensures nodes[order[j]].fwd[0] == if j + 1 < |order| then order[j + 1] else NIL
  {
    hide Rank, AllLinked, Linked, Heights, Entries, Split;
    AllTall(nodes, pos, order, level);
    CutSplits(nodes, pos, order, j, k);
    SplitHere(nodes, pos, order, j, k);
    EntriesJoin(nodes, order[1..j + 1], order[j + 1..]);
    assert order[1..] == order[1..j + 1] + order[j + 1..];
  }

  lemma EntriesJoin(nodes: seq<Node>, a: seq<int>, b: seq<int>)
    requires forall k :: 0 <= k < |a| ==> 0 <= a[k] < |nodes|
    requires forall k :: 0 <= k < |b| ==> 0 <= b[k] < |nodes|
    ensures (forall k :: 0 <= k < |a + b| ==> 0 <= (a + b)[k] < |nodes|)
    ensures Entries(nodes, a + b) == Entries(nodes, a) + Entries(nodes, b)
  {
  }

  lemma SplitHere(nodes: seq<Node>, pos: seq<real>, order: seq<int>, j: int, k: Bytes)
    requires Ordered(nodes, pos, order) && 0 <= j < |order|
    requires forall m :: 0 <= m <= j ==> Early(nodes, order[m], k)
    requires forall m :: j < m < |order| ==> !Early(nodes, order[m], k)
    ensures Split(Entries(nodes, order[1..j + 1]), Entries(nodes, order[j + 1..]), k)
  {
    hide Rank, Compare;
    var a, b := Entries(nodes, order[1..j + 1]), Entries(nodes, order[j + 1..]);
    forall i | 0 <= i < |a| ensures Below(a[i], k) {
      assert order[1..j + 1][i] == order[i + 1];
      assert Early(nodes, order[i + 1], k);
      assert pos[order[0]] < pos[order[i + 1]];
      CompareRank(a[i].key, k);
    }
    if j + 1 < |order| {
      assert !Early(nodes, order[j + 1], k);
      CompareRank(b[0].key, k);
    }
  }

  /** A cut for k at level l is a cut at any place between the early nodes and the rest. */
  lemma CutPlace(nodes: seq<Node>, pos: seq<real>, order: seq<int>, j: int, k: Bytes, u: int, l: int, x: real)
    requires Ordered(nodes, pos, order) && AllLinked(nodes, pos, order)
    requires Cut(nodes, order, u, l, k)
    requires 0 <= j < |order| && pos[order[j]] < x && (j + 1 < |order| ==> x < pos[order[j + 1]])
    requires forall m :: 0 <= m <= j ==> Early(nodes, order[m], k)
    requires forall m :: j < m < |order| ==> !Early(nodes, order[m], k)
    ensures CutAt(nodes, pos, order, u, l, x)
  {
    hide Rank;
    assert Linked(nodes, pos, order, u, l);
    var i :| 0 <= i < |order| && order[i] == u;
    var v := nodes[u].fwd[l];
    assert i <= j;
    if v != NIL {
      var m :| 0 <= m < |order| && order[m] == v;
      assert m > j;
    }
  }

  /** The entries once the new node stands behind the j-th. */
  lemma InsertContents(nodes: seq<Node>, nodes2: seq<Node>, order: seq<int>, j: int, upd: seq<int>, h: int, e: Entry)
    requires forall k :: 0 <= k < |order| ==> 0 <= order[k] < |nodes|
    requires Spliced(nodes, nodes2, upd, h) && 0 <= j < |order|
    requires e == Entry(nodes2[|nodes|].key, nodes2[|nodes|].value)
    ensures var order2 := order[..j + 1] + [|nodes|] + order[j + 1..];
            && (forall k :: 0 <= k < |order2| ==> 0 <= order2[k] < |nodes2|)
            && Entries(nodes2, order2[1..])
            == Entries(nodes, order[1..j + 1]) + [e] + Entries(nodes, order[j + 1..])
  {
    var order2 := order[..j + 1] + [|nodes|] + order[j + 1..];
    var a, b := Entries(nodes, order[1..j + 1]), Entries(nodes, order[j + 1..]);
    assert forall k :: 0 <= k < |order| ==> Rewired(nodes, nodes2, upd, h, order[k]);
    assert order2[1..] == order[1..j + 1] + [|nodes|] + order[j + 1..];
    assert Entries(nodes2, order[1..j + 1]) == a;
    assert Entries(nodes2, order[j + 1..]) == b;
    assert Entries(nodes2, order2[1..]) == a + [e] + b;
  }

  lemma DeleteContents(nodes: seq<Node>, nodes2: seq<Node>, order: seq<int>, j: int, upd: seq<int>)
    requires forall k :: 0 <= k < |order| ==> 0 <= order[k] < |nodes|
    requires 0 < j < |order| && Bypassed(nodes, nodes2, upd, order[j])
    ensures var order2 := order[..j] + order[j + 1..];
            && (forall k :: 0 <= k < |order2| ==> 0 <= order2[k] < |nodes2|)
            && Entries(nodes2, order2[1..])
            == Entries(nodes, order[1..j]) + Entries(nodes, order[j..])[1..]
  {
    var order2 := order[..j] + order[j + 1..];
    assert forall k :: 0 <= k < |order| ==> Detoured(nodes, nodes2, upd, order[j], order[k]);
    assert order2[1..] == order[1..j] + order[j + 1..];
    assert Entries(nodes, order[j..])[1..] == Entries(nodes2, order[j + 1..]);
    assert Entries(nodes, order[1..j]) == Entries(nodes2, order[1..j]);
  }

  // ---- one whole insertion or deletion ----

  lemma InsertHeights(nodes: seq<Node>, nodes2: seq<Node>, pos: seq<real>, order: seq<int>, order2: seq<int>,
                      level: int, upd: seq<int>, h: int)
    requires WellFormed(nodes, pos, order, level) && Spliced(nodes, nodes2, upd, h) && 1 <= h <= MAX_LEVEL
    requires forall u {:trigger u in order} {:trigger u in order2} :: u in order2 <==> u in order || u == |nodes|
    requires h > level ==> upd[h - 1] == 0
    ensures Heights(nodes2, order2, if h > level then h else level)
  {
    hide Rank, AllLinked;
    assert Rewired(nodes, nodes2, upd, h, 0);
    var level2 := if h > level then h else level;
    forall u {:trigger u in order2} | u in order2 && u != 0 && 0 <= u < |nodes2|
      ensures 1 <= |nodes2[u].fwd| <= level2
    {
      if u != |nodes| {
        assert Rewired(nodes, nodes2, upd, h, u);
      }
    }
    assert nodes2[0].fwd[level2 - 1] == if level2 - 1 < h && 0 == upd[level2 - 1] then |nodes| else nodes[0].fwd[level2 - 1];
  }

  /** A place for a node behind the j-th. */
  ghost function PlaceBehind(pos: seq<real>, order: seq<int>, j: int): (x: real)
    requires forall k :: 0 <= k < |order| ==> 0 <= order[k] < |pos|
    requires 0 <= j < |order| && (j + 1 < |order| ==> pos[order[j]] < pos[order[j + 1]])
    ensures pos[order[j]] < x && (j + 1 < |order| ==> x < pos[order[j + 1]])
  {
    if j + 1 < |order| then (pos[order[j]] + pos[order[j + 1]]) / 2.0 else pos[order[j]] + 1.0
  }

  ghost predicate Behind(pos: seq<real>, order: seq<int>, j: int, x: real)
    requires forall k :: 0 <= k < |order| ==> 0 <= order[k] < |pos|
  {
    0 <= j < |order| && pos[order[j]] < x && (j + 1 < |order| ==> x < pos[order[j + 1]])
  }

  lemma InsertIsStep(nodes: seq<Node>, nodes2: seq<Node>, pos: seq<real>, order: seq<int>, level: int,
                     j: int, x: real, k: Bytes, upd: seq<int>, h: int)
    requires WellFormed(nodes, pos, order, level) && Spliced(nodes, nodes2, upd, h)
    requires nodes2[|nodes|].key == k
    requires Behind(pos, order, j, x) && Cut(nodes, order, order[j], 0, k)
    requires forall l :: 0 <= l < h ==> Cut(nodes, order, upd[l], l, k)
    ensures InsertStep(nodes, nodes2, pos, order, order[..j + 1] + [|nodes|] + order[j + 1..], x, upd, h)
  {
    hide Rank, AllLinked, Rewired, Linked;
    var order2 := order[..j + 1] + [|nodes|] + order[j + 1..];
    AllTall(nodes, pos, order, level);
    CutSplits(nodes, pos, order, j, k);
    forall m | 0 < m <= j ensures Rank(nodes[order[m]].key) <= Rank(k) {
      assert Early(nodes, order[m], k) && pos[order[0]] < pos[order[m]];
    }
    forall m | j < m < |order| ensures Rank(k) <= Rank(nodes[order[m]].key) {
      assert !Early(nodes, order[m], k);
    }
    InsertOrdered(nodes, nodes2, pos, order, j, x, upd, h);
    InsertedMembers(order, j, |nodes|);
    forall l {:trigger upd[l]} | 0 <= l < h ensures CutAt(nodes, pos, order, upd[l], l, x) {
      CutPlace(nodes, pos, order, j, k, upd[l], l, x);
    }
    assert forall u {:trigger u in order2} :: u in order2 <==> u in order || u == |nodes|;
  }

  /** A spliced node keeps the whole invariant, and the contents change as a scan would change them. */
  lemma InsertKeeps(nodes: seq<Node>, nodes2: seq<Node>, pos: seq<real>, order: seq<int>, level: int,
                    j: int, x: real, e: Entry, upd: seq<int>, h: int)
    requires WellFormed(nodes, pos, order, level) && Spliced(nodes, nodes2, upd, h) && 1 <= h <= MAX_LEVEL
    requires e == Entry(nodes2[|nodes|].key, nodes2[|nodes|].value)
    requires Behind(pos, order, j, x) && Cut(nodes, order, order[j], 0, e.key)
    requires forall l :: 0 <= l < h ==> Cut(nodes, order, upd[l], l, e.key)
    requires h > level ==> upd[h - 1] == 0
    ensures var order2 := order[..j + 1] + [|nodes|] + order[j + 1..];
            && WellFormed(nodes2, pos + [x], order2, if h > level then h else level)
            && Contents(nodes2, pos + [x], order2) == Inserted(Contents(nodes, pos, order), e.key, e.value)
  {
    hide Rank, AllLinked, Rewired, Linked, Heights, Cut, Inserted, Removed, FirstFrom, Overwritten;
    var order2 := order[..j + 1] + [|nodes|] + order[j + 1..];
    InsertIsStep(nodes, nodes2, pos, order, level, j, x, e.key, upd, h);
    InsertLinks(nodes, nodes2, pos, order, order2, x, upd, h);
    InsertHeights(nodes, nodes2, pos, order, order2, level, upd, h);
    CutContents(nodes, pos, order, level, j, e.key);
    InsertAtSplit(Entries(nodes, order[1..j + 1]), Entries(nodes, order[j + 1..]), e.key, e.value);
    InsertContents(nodes, nodes2, order, j, upd, h, e);
  }

  /** At each of its levels the first node >= k is the one the cut points to; above them it is not. */
  lemma CutHitsFirst(nodes: seq<Node>, pos: seq<real>, order: seq<int>, level: int, j: int, k: Bytes, u: int, l: int)
    requires WellFormed(nodes, pos, order, level)
    requires 0 <= j && j + 1 < |order| && Cut(nodes, order, order[j], 0, k) && Cut(nodes, order, u, l, k)
    ensures nodes[u].fwd[l] == order[j + 1] <==> l < |nodes[order[j + 1]].fwd|
    ensures u != order[j + 1]
  {
    hide Rank;
    AllTall(nodes, pos, order, level);
    CutSplits(nodes, pos, order, j, k);
    var d := order[j + 1];
    assert !Early(nodes, d, k);
    assert Linked(nodes, pos, order, u, l);
    if l < |nodes[d].fwd| {
      assert Tall(nodes, order, d, l);
      EarlyFirst(nodes, pos, order, u, d, k);
      var v := nodes[u].fwd[l];
      var m :| 0 <= m < |order| && order[m] == v;
      assert m > j;
    }
  }

  lemma DeleteHeights(nodes: seq<Node>, nodes2: seq<Node>, order: seq<int>, order2: seq<int>,
                      level: int, upd: seq<int>, d: int)
    requires |nodes| > 0 && Heights(nodes, order, level) && Bypassed(nodes, nodes2, upd, d)
    requires forall u {:trigger u in order} {:trigger u in order2} :: u in order2 <==> u in order && u != d
    ensures 0 <= level <= MAX_LEVEL == |nodes2[0].fwd|
    ensures forall u {:trigger u in order2} :: u in order2 && u != 0 && 0 <= u < |nodes2| ==> 1 <= |nodes2[u].fwd| <= level
  {
    forall u | 0 <= u < |nodes| ensures |nodes2[u].fwd| == |nodes[u].fwd| {
      assert Detoured(nodes, nodes2, upd, d, u);
    }
  }

  lemma DeleteKeeps(nodes: seq<Node>, nodes2: seq<Node>, pos: seq<real>, order: seq<int>, level: int,
                    j: int, k: Bytes, upd: seq<int>)
    requires WellFormed(nodes, pos, order, level)
    requires 0 <= j && j + 1 < |order| && Cut(nodes, order, order[j], 0, k)
    requires nodes[order[j + 1]].key == k && Bypassed(nodes, nodes2, upd, order[j + 1])
    requires forall l :: 0 <= l < level ==> l < |upd| && Cut(nodes, order, upd[l], l, k)
    ensures var order2 := order[..j + 1] + order[j + 2..];
            && Ordered(nodes2, pos, order2) && AllLinked(nodes2, pos, order2)
            && 0 <= level <= MAX_LEVEL == |nodes2[0].fwd|
            && (forall u {:trigger u in order2} ::
                  u in order2 && u != 0 && 0 <= u < |nodes2| ==> 1 <= |nodes2[u].fwd| <= level)
            && Removed(Contents(nodes, pos, order), k) == Some(Contents(nodes2, pos, order2))
  {
    hide Rank, AllLinked, Linked, Detoured, Cut, Inserted, Removed, FirstFrom, Overwritten;
    var d := order[j + 1];
    var order2 := order[..j + 1] + order[j + 2..];
    assert d in order && d != 0 by { assert pos[order[0]] < pos[d]; }
    DeleteOrdered(nodes, nodes2, pos, order, j + 1, upd);
    forall l {:trigger upd[l]} | 0 <= l < |nodes[d].fwd|
      ensures Tall(nodes, order, upd[l], l) && nodes[upd[l]].fwd[l] == d
    {
      CutHitsFirst(nodes, pos, order, level, j, k, upd[l], l);
      CutTall(nodes, order, upd[l], l, k);
    }
    DeleteLinks(nodes, nodes2, pos, order, order2, upd, d);
    DeleteHeights(nodes, nodes2, order, order2, level, upd, d);
    CutContents(nodes, pos, order, level, j, k);
    RemoveAtSplit(Entries(nodes, order[1..j + 1]), Entries(nodes, order[j + 1..]), k);
    DeleteContents(nodes, nodes2, order, j + 1, upd);
  }

  lemma CutTall(nodes: seq<Node>, order: seq<int>, u: int, l: int, k: Bytes)
    requires Cut(nodes, order, u, l, k)
    ensures Tall(nodes, order, u, l) && Early(nodes, u, k)
  {
  }

  lemma StartSplicing(nodes: seq<Node>, nodes2: seq<Node>, order: seq<int>, upd: seq<int>, h: int, k: Bytes)
    requires 0 <= h <= |upd| && |nodes2| == |nodes| + 1 && nodes2[..|nodes|] == nodes && |nodes2[|nodes|].fwd| == h
    requires forall l :: 0 <= l < h ==> Cut(nodes, order, upd[l], l, k)
    ensures Splicing(nodes, nodes2, upd, h, 0)
  {
    assert forall u :: 0 <= u < |nodes| ==> nodes2[u] == nodes2[..|nodes|][u];
    forall l {:trigger upd[l]} | 0 <= l < h ensures 0 <= upd[l] < |nodes| && l < |nodes[upd[l]].fwd| {
      CutTall(nodes, order, upd[l], l, k);
    }
  }

  lemma StartBypassing(nodes: seq<Node>, upd: seq<int>, d: int)
    requires 0 <= d < |nodes| && |nodes[d].fwd| <= |upd|
    ensures Bypassing(nodes, nodes, upd, d, 0)
  {
  }

  /** Level i is untouched while the levels below it are being bypassed. */
  lemma SameForward(nodes: seq<Node>, nodes2: seq<Node>, upd: seq<int>, d: int, i: int, u: int)
    requires Bypassing(nodes, nodes2, upd, d, i) && 0 <= u < |nodes| && 0 <= i < |nodes[u].fwd|
    ensures |nodes2[u].fwd| == |nodes[u].fwd| && nodes2[u].fwd[i] == nodes[u].fwd[i]
  {
    assert PartlyDetoured(nodes, nodes2, upd, d, i, u);
  }

  /** Changing the value of the node behind the j-th. */
  lemma OverwriteKeeps(nodes: seq<Node>, nodes2: seq<Node>, pos: seq<real>, order: seq<int>, level: int, j: int, v: Bytes)
    requires WellFormed(nodes, pos, order, level) && 0 <= j && j + 1 < |order|
    requires nodes2 == nodes[order[j + 1] := nodes[order[j + 1]].(value := v)]
    ensures WellFormed(nodes2, pos, order, level)
    ensures Contents(nodes2, pos, order)
         == Entries(nodes, order[1..j + 1]) + [Entry(nodes[order[j + 1]].key, v)] + Entries(nodes, order[j + 1..])[1..]
  {
    hide Rank;
    OverwriteLinks(nodes, nodes2, pos, order, order[j + 1], v);
    OverwriteContents(nodes, nodes2, pos, order, j, v);
  }

  lemma OverwriteLinks(nodes: seq<Node>, nodes2: seq<Node>, pos: seq<real>, order: seq<int>, d: int, v: Bytes)
    requires Ordered(nodes, pos, order) && AllLinked(nodes, pos, order)
    requires 0 <= d < |nodes| && nodes2 == nodes[d := nodes[d].(value := v)]
    ensures Ordered(nodes2, pos, order) && AllLinked(nodes2, pos, order)
  {
    hide Rank;
    forall u, l {:trigger Tall(nodes2, order, u, l)} ensures Tall(nodes2, order, u, l) <==> Tall(nodes, order, u, l) {
    }
    forall u, l {:trigger Tall(nodes2, order, u, l)} | Tall(nodes2, order, u, l)
      ensures Linked(nodes2, pos, order, u, l)
    {
      hide Ordered;
      PosLength(nodes, pos, order);
      assert Tall(nodes, order, u, l) && Linked(nodes, pos, order, u, l);
    }
  }

  lemma OverwriteContents(nodes: seq<Node>, nodes2: seq<Node>, pos: seq<real>, order: seq<int>, j: int, v: Bytes)
    requires Ordered(nodes, pos, order) && Ordered(nodes2, pos, order) && 0 <= j && j + 1 < |order|
    requires nodes2 == nodes[order[j + 1] := nodes[order[j + 1]].(value := v)]
    ensures Contents(nodes2, pos, order)
         == Entries(nodes, order[1..j + 1]) + [Entry(nodes[order[j + 1]].key, v)] + Entries(nodes, order[j + 1..])[1..]
  {
    hide Rank, Entries;
    var a, d, b := order[1..j + 1], order[j + 1], order[j + 2..];
    assert d !in a && d !in b by {
      assert forall m :: 0 <= m < |order| && m != j + 1 ==> pos[order[m]] != pos[d];
    }
    hide Ordered;
    OverwrittenEntries(nodes, nodes2, a, d, b, v);
    assert order[1..] == a + [d] + b;
    EntriesTail(nodes, order[j + 1..]);
    assert order[j + 1..][1..] == b;
  }

  lemma OverwrittenEntries(nodes: seq<Node>, nodes2: seq<Node>, a: seq<int>, d: int, b: seq<int>, v: Bytes)
    requires (forall k :: 0 <= k < |a| ==> 0 <= a[k] < |nodes|) && (forall k :: 0 <= k < |b| ==> 0 <= b[k] < |nodes|)
    requires 0 <= d < |nodes| && d !in a && d !in b && nodes2 == nodes[d := nodes[d].(value := v)]
    ensures forall k :: 0 <= k < |a + [d] + b| ==> 0 <= (a + [d] + b)[k] < |nodes2|
    ensures Entries(nodes2, a + [d] + b) == Entries(nodes, a) + [Entry(nodes[d].key, v)] + Entries(nodes, b)
  {
  }

  lemma EntriesTail(nodes: seq<Node>, ids: seq<int>)
    requires ids != [] && forall k :: 0 <= k < |ids| ==> 0 <= ids[k] < |nodes|
    ensures Entries(nodes, ids)[1..] == Entries(nodes, ids[1..])
  {
  }

  class List {
    var nodes: seq<Node>
    var level: int
    ghost var pos: seq<real>
    ghost var order: seq<int>

    ghost predicate Valid()
      reads this
    {
      WellFormed(nodes, pos, order, level)
    }

    /** The level-0 entries in order. */
    ghost function Entries0(): seq<Entry>
      requires Valid()
      reads this
    {
      Contents(nodes, pos, order)
    }

    /** NewSkipList. */
    constructor ()
      ensures Valid() && Entries0() == [] && level == 0
    {
      nodes := [Node([], [], seq(MAX_LEVEL, i => NIL))];
      level := 0;
      pos := [0.0];
      order := [0];
    }

    /** The inner loop: along level i to the last node before key. */
    method Along(key: Bytes, i: int, start: int, ghost from: int) returns (current: int, ghost j: int)
      requires Valid() && 0 <= from < |order| && order[from] == start
      requires 0 <= start < |nodes| && 0 <= i < |nodes[start].fwd| && Early(nodes, start, key)
      ensures 0 <= j < |order| && order[j] == current && Cut(nodes, order, current, i, key)
    {
      hide Rank, Linked, Compare, AllLinked, Heights;
      current, j := start, from;
      ghost var n := NextAt(nodes, pos, order, j, i);
      while nodes[current].fwd[i] != NIL && Compare(nodes[nodes[current].fwd[i]].key, key) < 0
        invariant 0 <= j < n <= |order| && order[j] == current && Early(nodes, current, key)
        invariant i < |nodes[current].fwd|
        invariant nodes[current].fwd[i] == if n < |order| then order[n] else NIL
        invariant n < |order| ==> i < |nodes[order[n]].fwd|
        decreases |order| - j
      {
        CompareRank(nodes[nodes[current].fwd[i]].key, key);
        current := nodes[current].fwd[i];
        j := n;
        n := NextAt(nodes, pos, order, j, i);
      }
      if n < |order| {
        CompareRank(nodes[order[n]].key, key);
        assert pos[order[0]] < pos[order[n]];
      }
    }

    /** The loop every operation starts with: the last node before key, on each level. */
    method Descend(key: Bytes) returns (current: int, upd: seq<int>, ghost j: int)
      requires Valid()
      ensures |upd| == MAX_LEVEL
      ensures 0 <= j < |order| && order[j] == current && Cut(nodes, order, current, 0, key)
      ensures forall l :: 0 <= l < level ==> Cut(nodes, order, upd[l], l, key)
    {
      hide WellFormed, Cut;
      HeadIsFirst(nodes, pos, order, level, key);
      current, j := 0, 0;
      upd := seq(MAX_LEVEL, i => NIL);
      var i := level - 1;
      while i >= 0
        invariant -1 <= i < level && |upd| == MAX_LEVEL
        invariant 0 <= j < |order| && order[j] == current && 0 <= current < |nodes|
        invariant Early(nodes, current, key) && i < |nodes[current].fwd|
        invariant forall l :: i < l < level ==> Cut(nodes, order, upd[l], l, key)
        invariant if i == level - 1 then current == 0 else Cut(nodes, order, current, i + 1, key)
      {
        current, j := Along(key, i, current, j);
        CutTall(nodes, order, current, i, key);
        upd := upd[i := current];
        i := i - 1;
      }
      if level == 0 {
        CutAtHead(nodes, pos, order, level, 0, key);
      }
    }

    /** Returns the first node whose key is >= key, as a scan of level 0 would. */
    method Search(key: Bytes) returns (found: int)
      requires Valid()
      ensures found == NIL <==> FirstFrom(Entries0(), key).None?
      ensures found != NIL ==> 0 < found < |nodes| && found in order
      ensures found != NIL ==> FirstFrom(Entries0(), key) == Some(Entry(nodes[found].key, nodes[found].value))
    {
      hide Rank, AllLinked, Compare, FirstFrom, Inserted, Removed, Overwritten;
      var current, _, j := Descend(key);
      CutContents(nodes, pos, order, level, j, key);
      FindAtSplit(Entries(nodes, order[1..j + 1]), Entries(nodes, order[j + 1..]), key);
      assert j + 1 < |order| ==> pos[order[0]] < pos[order[j + 1]];
      var possibleMatch := nodes[current].fwd[0];
      if possibleMatch != NIL && Compare(nodes[possibleMatch].key, key) >= 0 {
        return possibleMatch;
      }
      return NIL;
    }

    /** The new node's pointers, level by level. */
    method LinkIn(upd: seq<int>, h: int)
      requires |nodes| > 0 && Splicing(nodes[..|nodes| - 1], nodes, upd, h, 0)
      modifies this`nodes
      ensures Spliced(old(nodes[..|nodes| - 1]), nodes, upd, h)
      ensures nodes[|nodes| - 1].key == old(nodes[|nodes| - 1].key)
      ensures nodes[|nodes| - 1].value == old(nodes[|nodes| - 1].value)
    {
      hide Rewired, SetForward;
      ghost var was := nodes[..|nodes| - 1];
      var p := |nodes| - 1;
      var i := 0;
      while i < h
        invariant 0 <= i <= h && Splicing(was, nodes, upd, h, i)
        invariant nodes[p].key == old(nodes[p].key) && nodes[p].value == old(nodes[p].value)
      {
        SplicingStep(was, nodes, upd, h, i);
        nodes := SetForward(nodes, p, i, nodes[upd[i]].fwd[i]);
        nodes := SetForward(nodes, upd[i], i, p);
        i := i + 1;
      }
    }

    /** The descent, and the head as the last node before the key on the levels a node of height h adds. */
    method Path(key: Bytes, h: int) returns (upd: seq<int>, ghost j: int)
      requires Valid() && 1 <= h <= MAX_LEVEL
      ensures |upd| == MAX_LEVEL && 0 <= j < |order| && Cut(nodes, order, order[j], 0, key)
      ensures forall l :: 0 <= l < h ==> Cut(nodes, order, upd[l], l, key)
      ensures h > level ==> upd[h - 1] == 0
    {
      hide WellFormed, Cut;
      LevelInRange(nodes, pos, order, level);
      var current;
      current, upd, j := Descend(key);
      if h > level {
        var i := level;
        while i < h
          invariant level <= i <= h && |upd| == MAX_LEVEL
          invariant forall l :: 0 <= l < i ==> Cut(nodes, order, upd[l], l, key)
          invariant i > level ==> upd[i - 1] == 0
        {
          CutAtHead(nodes, pos, order, level, i, key);
          upd := upd[i := 0];
          i := i + 1;
        }
      }
    }

    /** Never overwrites; h is the drawn level. */
    method Insert(key: Bytes, value: Bytes, h: int)
      requires Valid() && 1 <= h <= MAX_LEVEL
      modifies this
      ensures Valid() && Entries0() == Inserted(old(Entries0()), key, value)
      ensures level == if h > old(level) then h else old(level)
    {
      hide AllLinked, Heights, Cut, Rewired, Inserted, Rank;
      var upd, j := Path(key, h);
      ghost var nodes0, x := nodes, PlaceBehind(pos, order, j);
      nodes := nodes + [Node(key, value, seq(h, i => NIL))];
      assert nodes[..|nodes| - 1] == nodes0;
      StartSplicing(nodes0, nodes, order, upd, h, key);
      LinkIn(upd, h);
      InsertKeeps(nodes0, nodes, pos, order, level, j, x, Entry(key, value), upd, h);
      order := order[..j + 1] + [|nodes0|] + order[j + 1..];
      pos := pos + [x];
      if h > level {
        level := h;
      }
    }

    /** Drops the empty levels at the top. */
    method ShrinkLevel()
      requires Ordered(nodes, pos, order) && AllLinked(nodes, pos, order)
      requires 0 <= level <= MAX_LEVEL == |nodes[0].fwd|
      requires forall u {:trigger u in order} :: u in order && u != 0 && 0 <= u < |nodes| ==> 1 <= |nodes[u].fwd| <= level
      modifies this`level
      ensures Valid()
    {
      hide Rank;
      assert forall m :: 0 < m < |order| ==> pos[0] < pos[order[m]];
      while level > 1 && nodes[0].fwd[level - 1] == NIL
        invariant 0 <= level <= MAX_LEVEL
        invariant forall u {:trigger u in order} :: u in order && u != 0 && 0 <= u < |nodes| ==> 1 <= |nodes[u].fwd| <= level
      {
        assert Tall(nodes, order, 0, level - 1);
        assert Linked(nodes, pos, order, 0, level - 1);
        forall u {:trigger u in order} | u in order && u != 0 && 0 <= u < |nodes| ensures |nodes[u].fwd| < level {
          assert !Tall(nodes, order, u, level - 1);
        }
        level := level - 1;
      }
    }

    /** Removes the newest entry with the key; fails when there is none. */
    method Delete(key: Bytes) returns (ok: bool)
      requires Valid()
      modifies this
      ensures Valid()
      ensures ok <==> Removed(old(Entries0()), key).Some?
      ensures Entries0() == if ok then Removed(old(Entries0()), key).value else old(Entries0())
    {
      hide Rank, AllLinked, Linked, PartlyDetoured, Detoured, Early, Removed, Inserted, FirstFrom, Overwritten, SetForward;
      var current, upd, j := Descend(key);
      CutContents(nodes, pos, order, level, j, key);
      RemoveAtSplit(Entries(nodes, order[1..j + 1]), Entries(nodes, order[j + 1..]), key);
      current := nodes[current].fwd[0];
      if current != NIL && Compare(nodes[current].key, key) == 0 {
        CompareRank(nodes[current].key, key);
        Unlink(current, upd, j, key);
        ok := true;
        DeleteKeeps(old(nodes), nodes, pos, order, level, j, key, upd);
        order := order[..j + 1] + order[j + 2..];
        ShrinkLevel();
        return;
      }
      if current != NIL {
        CompareRank(nodes[current].key, key);
      }
      return false;
    }

    /** Bypasses d level by level, until a level where the cut does not point to it. */
    method Unlink(d: int, upd: seq<int>, ghost j: int, ghost key: Bytes)
      requires Valid() && |upd| == MAX_LEVEL
      requires 0 <= j && j + 1 < |order| && order[j + 1] == d && Cut(nodes, order, order[j], 0, key)
      requires forall l :: 0 <= l < level ==> Cut(nodes, order, upd[l], l, key)
      modifies this`nodes
      ensures Bypassed(old(nodes), nodes, upd, d)
    {
      hide Rank, AllLinked, Linked, PartlyDetoured, Early, SetForward;
      assert d in order && d != 0 by { assert pos[order[0]] < pos[d]; }
      ghost var was := nodes;
      forall l | 0 <= l < level
        ensures upd[l] != d && was[upd[l]].fwd[l] == d <==> l < |was[d].fwd|
      {
        CutHitsFirst(was, pos, order, level, j, key, upd[l], l);
      }
      StartBypassing(was, upd, d);
      var i := 0;
      while i < level
        invariant 0 <= i <= level && i <= |was[d].fwd| && Bypassing(was, nodes, upd, d, i)
      {
        CutTall(was, order, upd[i], i, key);
        SameForward(was, nodes, upd, d, i, upd[i]);
        if nodes[upd[i]].fwd[i] != d {
          break;
        }
        BypassingStep(was, nodes, upd, d, i);
        nodes := SetForward(nodes, upd[i], i, nodes[d].fwd[i]);
        i := i + 1;
      }
      BypassingDone(was, nodes, upd, d);
    }

    /** Overwrites the newest entry with the key, or inserts one. */
    method Update(key: Bytes, value: Bytes, h: int)
      requires Valid() && 1 <= h <= MAX_LEVEL
      modifies this
      ensures Valid() && Entries0() == Overwritten(old(Entries0()), key, value)
    {
      hide Rank, AllLinked, Linked, Early, Removed, Inserted, FirstFrom, Overwritten;
      var current, _, j := Descend(key);
      CutContents(nodes, pos, order, level, j, key);
      OverwriteAtSplit(Entries(nodes, order[1..j + 1]), Entries(nodes, order[j + 1..]), key, value);
      InsertAtSplit(Entries(nodes, order[1..j + 1]), Entries(nodes, order[j + 1..]), key, value);
      current := nodes[current].fwd[0];
      if current != NIL {
        CompareRank(nodes[current].key, key);
      }
      if current != NIL && Compare(nodes[current].key, key) == 0 {
        nodes := nodes[current := nodes[current].(value := value)];
        OverwriteKeeps(old(nodes), nodes, pos, order, level, j, value);
      } else {
        Insert(key, value, h);
      }
    }
  }
}
