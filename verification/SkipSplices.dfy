/** Splicing a node into, or out of, all the levels of a skip list. */
module SkipSplices {
  import opened ByteKeys
  import opened SkipLevels

  /** u is the last node of level l placed before x. */
  ghost predicate CutAt(nodes: seq<Node>, pos: seq<real>, order: seq<int>, u: int, l: int, x: real)
    requires Ordered(nodes, pos, order)
  {
    && Tall(nodes, order, u, l)
    && pos[u] < x
    && (var v := nodes[u].fwd[l]; v != NIL ==> 0 <= v < |nodes| && pos[v] > x)
  }

  lemma SamePlace(nodes: seq<Node>, pos: seq<real>, order: seq<int>, u: int, w: int)
    requires Ordered(nodes, pos, order) && u in order && w in order && pos[u] == pos[w]
    ensures u == w
  {
    hide Rank;
  }

  // ---- in ----

  /** nodes2 is nodes with one more node, linked behind upd[l] at each level l below h. */
  ghost predicate Spliced(nodes: seq<Node>, nodes2: seq<Node>, upd: seq<int>, h: int) {
    && 0 <= h <= |upd|
    && |nodes2| == |nodes| + 1
    && |nodes2[|nodes|].fwd| == h
    && (forall l :: 0 <= l < h ==>
          0 <= upd[l] < |nodes| && l < |nodes[upd[l]].fwd| && nodes2[|nodes|].fwd[l] == nodes[upd[l]].fwd[l])
    && (forall u :: 0 <= u < |nodes| ==> Rewired(nodes, nodes2, upd, h, u))
  }

  ghost predicate Rewired(nodes: seq<Node>, nodes2: seq<Node>, upd: seq<int>, h: int, u: int)
    requires 0 <= u < |nodes| <= |nodes2| && 0 <= h <= |upd|
  {
    && nodes2[u].key == nodes[u].key && nodes2[u].value == nodes[u].value
    && |nodes2[u].fwd| == |nodes[u].fwd|
    && (forall l {:trigger nodes2[u].fwd[l]} {:trigger nodes[u].fwd[l]} :: 0 <= l < |nodes[u].fwd| ==>
          nodes2[u].fwd[l] == if l < h && u == upd[l] then |nodes| else nodes[u].fwd[l])
  }

  lemma InsertedMembers(order: seq<int>, j: nat, p: int)
    requires j < |order|
    ensures forall u {:trigger u in order} :: u in order[..j + 1] + [p] + order[j + 1..] <==> u in order || u == p
  {
    assert order == order[..j + 1] + order[j + 1..];
  }

  lemma InsertPlaces(pos: seq<real>, order: seq<int>, j: nat, x: real)
    requires forall k :: 0 <= k < |order| ==> 0 <= order[k] < |pos|
    requires forall i, k :: 0 <= i < k < |order| ==> pos[order[i]] < pos[order[k]]
    requires j < |order| && pos[order[j]] < x && (j + 1 < |order| ==> x < pos[order[j + 1]])
    ensures var order2 := order[..j + 1] + [|pos|] + order[j + 1..];
            && (forall k :: 0 <= k < |order2| ==> 0 <= order2[k] < |pos + [x]|)
            && (forall i, k :: 0 <= i < k < |order2| ==> (pos + [x])[order2[i]] < (pos + [x])[order2[k]])
  {
    var pos2, order2 := pos + [x], order[..j + 1] + [|pos|] + order[j + 1..];
    forall i, k | 0 <= i < k < |order2| ensures pos2[order2[i]] < pos2[order2[k]] {
      assert i < j ==> pos[order[i]] < pos[order[j]];
      assert k > j + 2 ==> pos[order[j + 1]] < pos[order[k - 1]];
    }
  }

  lemma InsertKeys(nodes: seq<Node>, nodes2: seq<Node>, pos: seq<real>, order: seq<int>, j: nat,
                   upd: seq<int>, h: int, i: int, k: int)
    requires Ordered(nodes, pos, order) && j < |order| && Spliced(nodes, nodes2, upd, h)
    requires forall m :: 0 < m <= j ==> Rank(nodes[order[m]].key) <= Rank(nodes2[|nodes|].key)
    requires forall m :: j < m < |order| ==> Rank(nodes2[|nodes|].key) <= Rank(nodes[order[m]].key)
    requires 0 < i < k <= |order|
    ensures var order2 := order[..j + 1] + [|nodes|] + order[j + 1..];
            && 0 <= order2[i] <= |nodes| && 0 <= order2[k] <= |nodes|
            && Rank(nodes2[order2[i]].key) <= Rank(nodes2[order2[k]].key)
  {
    hide Rank;
    var order2 := order[..j + 1] + [|nodes|] + order[j + 1..];
    var a, b := if i <= j then i else i - 1, if k <= j then k else k - 1;
    assert i == j + 1 || (order2[i] == order[a] && Rewired(nodes, nodes2, upd, h, order[a]));
    assert k == j + 1 || (order2[k] == order[b] && Rewired(nodes, nodes2, upd, h, order[b]));
  }

  /** The order of the nodes once the new node, placed at x, stands behind the j-th. */
  lemma InsertOrdered(nodes: seq<Node>, nodes2: seq<Node>, pos: seq<real>, order: seq<int>, j: nat, x: real,
                      upd: seq<int>, h: int)
    requires Ordered(nodes, pos, order) && j < |order| && Spliced(nodes, nodes2, upd, h)
    requires pos[order[j]] < x && (j + 1 < |order| ==> x < pos[order[j + 1]])
    requires forall m :: 0 < m <= j ==> Rank(nodes[order[m]].key) <= Rank(nodes2[|nodes|].key)
    requires forall m :: j < m < |order| ==> Rank(nodes2[|nodes|].key) <= Rank(nodes[order[m]].key)
    ensures Ordered(nodes2, pos + [x], order[..j + 1] + [|nodes|] + order[j + 1..])
  {
    hide Rank, Rewired;
    var order2 := order[..j + 1] + [|nodes|] + order[j + 1..];
    InsertPlaces(pos, order, j, x);
    forall i, k | 0 < i < k < |order2| ensures Rank(nodes2[order2[i]].key) <= Rank(nodes2[order2[k]].key) {
      InsertKeys(nodes, nodes2, pos, order, j, upd, h, i, k);
    }
  }

  ghost predicate InsertStep(nodes: seq<Node>, nodes2: seq<Node>, pos: seq<real>, order: seq<int>, order2: seq<int>,
                             x: real, upd: seq<int>, h: int) {
    && Ordered(nodes, pos, order) && AllLinked(nodes, pos, order)
    && Spliced(nodes, nodes2, upd, h)
    && Ordered(nodes2, pos + [x], order2)
    && (forall u {:trigger u in order} {:trigger u in order2} :: u in order2 <==> u in order || u == |nodes|)
    && (forall l {:trigger upd[l]} :: 0 <= l < h ==> CutAt(nodes, pos, order, upd[l], l, x))
  }

  lemma OldTall(nodes: seq<Node>, nodes2: seq<Node>, pos: seq<real>, order: seq<int>, order2: seq<int>, x: real,
                upd: seq<int>, h: int, w: int, l: int)
    requires InsertStep(nodes, nodes2, pos, order, order2, x, upd, h)
    ensures w != |nodes| ==> (Tall(nodes2, order2, w, l) <==> Tall(nodes, order, w, l))
    ensures Tall(nodes2, order2, |nodes|, l) <==> 0 <= l < h
    ensures |nodes| !in order
  {
    hide Rank;
    if 0 <= w < |nodes| {
      assert Rewired(nodes, nodes2, upd, h, w);
    }
  }

  lemma InsertLinksNew(nodes: seq<Node>, nodes2: seq<Node>, pos: seq<real>, order: seq<int>, order2: seq<int>, x: real,
                       upd: seq<int>, h: int, l: int)
    requires InsertStep(nodes, nodes2, pos, order, order2, x, upd, h) && 0 <= l < h
    requires Tall(nodes2, order2, |nodes|, l)
    ensures Linked(nodes2, pos + [x], order2, |nodes|, l)
  {
    hide Rank, Ordered;
    assert Ordered(nodes, pos, order) && |pos| == |nodes| by { PosLength(nodes, pos, order); }
    var u := upd[l];
    assert CutAt(nodes, pos, order, u, l, x);
    assert Linked(nodes, pos, order, u, l);
    var v := nodes[u].fwd[l];
    OldTall(nodes, nodes2, pos, order, order2, x, upd, h, v, l);
    forall w {:trigger Tall(nodes2, order2, w, l)} | Tall(nodes2, order2, w, l) && x < (pos + [x])[w]
      ensures v != NIL && (pos + [x])[v] <= (pos + [x])[w]
    {
      OldTall(nodes, nodes2, pos, order, order2, x, upd, h, w, l);
      assert Tall(nodes, order, w, l);
    }
  }

  lemma PosLength(nodes: seq<Node>, pos: seq<real>, order: seq<int>)
    requires Ordered(nodes, pos, order)
    ensures |pos| == |nodes| && |order| > 0 && order[0] == 0 && 0 < |nodes|
    ensures forall u {:trigger u in order} :: u in order ==> 0 <= u < |nodes|
  {
  }

  lemma InsertLinksCut(nodes: seq<Node>, nodes2: seq<Node>, pos: seq<real>, order: seq<int>, order2: seq<int>, x: real,
                       upd: seq<int>, h: int, l: int)
    requires InsertStep(nodes, nodes2, pos, order, order2, x, upd, h) && 0 <= l < h
    requires Tall(nodes2, order2, upd[l], l)
    ensures Linked(nodes2, pos + [x], order2, upd[l], l)
  {
    hide Rank, Ordered;
    PosLength(nodes, pos, order);
    var u := upd[l];
    assert CutAt(nodes, pos, order, u, l, x);
    assert Linked(nodes, pos, order, u, l);
    assert Rewired(nodes, nodes2, upd, h, u);
    assert nodes2[u].fwd[l] == |nodes|;
    OldTall(nodes, nodes2, pos, order, order2, x, upd, h, u, l);
    forall w {:trigger Tall(nodes2, order2, w, l)} | Tall(nodes2, order2, w, l) && pos[u] < (pos + [x])[w]
      ensures x <= (pos + [x])[w]
    {
      OldTall(nodes, nodes2, pos, order, order2, x, upd, h, w, l);
      if w != |nodes| {
        assert Tall(nodes, order, w, l);
      }
    }
  }

  /** An early node of level l that is not the cut points to a node no later than the cut. */
  lemma BeforeCut(nodes: seq<Node>, pos: seq<real>, order: seq<int>, u: int, c: int, l: int, x: real)
    requires Ordered(nodes, pos, order) && AllLinked(nodes, pos, order)
    requires CutAt(nodes, pos, order, c, l, x) && Tall(nodes, order, u, l) && pos[u] < x && u != c
    ensures var v := nodes[u].fwd[l]; v != NIL && Tall(nodes, order, v, l) && pos[v] < x
  {
    hide Rank, Ordered;
    PosLength(nodes, pos, order);
    assert Linked(nodes, pos, order, c, l);
    assert Linked(nodes, pos, order, u, l);
    if pos[u] == pos[c] {
      SamePlace(nodes, pos, order, u, c);
    }
  }

  lemma InsertLinksRest(nodes: seq<Node>, nodes2: seq<Node>, pos: seq<real>, order: seq<int>, order2: seq<int>, x: real,
                        upd: seq<int>, h: int, u: int, l: int)
    requires InsertStep(nodes, nodes2, pos, order, order2, x, upd, h)
    requires Tall(nodes2, order2, u, l) && u != |nodes| && !(l < h && u == upd[l])
    ensures Linked(nodes2, pos + [x], order2, u, l)
  {
    hide Rank, Ordered;
    PosLength(nodes, pos, order);
    OldTall(nodes, nodes2, pos, order, order2, x, upd, h, u, l);
    assert Linked(nodes, pos, order, u, l);
    assert Rewired(nodes, nodes2, upd, h, u);
    var v := nodes[u].fwd[l];
    assert nodes2[u].fwd[l] == v;
    OldTall(nodes, nodes2, pos, order, order2, x, upd, h, v, l);
    forall w {:trigger Tall(nodes2, order2, w, l)} | Tall(nodes2, order2, w, l) && pos[u] < (pos + [x])[w]
      ensures v != NIL && (pos + [x])[v] <= (pos + [x])[w]
    {
      OldTall(nodes, nodes2, pos, order, order2, x, upd, h, w, l);
      if w == |nodes| {
        BeforeCut(nodes, pos, order, u, upd[l], l, x);
      } else {
        assert Tall(nodes, order, w, l);
      }
    }
  }

  /** Splicing a node in keeps every level linked. */
  lemma InsertLinks(nodes: seq<Node>, nodes2: seq<Node>, pos: seq<real>, order: seq<int>, order2: seq<int>, x: real,
                    upd: seq<int>, h: int)
    requires InsertStep(nodes, nodes2, pos, order, order2, x, upd, h)
    ensures AllLinked(nodes2, pos + [x], order2)
  {
    hide Rank, Ordered, Linked;
    forall u, l {:trigger Tall(nodes2, order2, u, l)} | Tall(nodes2, order2, u, l)
      ensures Linked(nodes2, pos + [x], order2, u, l)
    {
      OldTall(nodes, nodes2, pos, order, order2, x, upd, h, u, l);
      if u == |nodes| {
        InsertLinksNew(nodes, nodes2, pos, order, order2, x, upd, h, l);
      } else if l < h && u == upd[l] {
        InsertLinksCut(nodes, nodes2, pos, order, order2, x, upd, h, l);
      } else {
        InsertLinksRest(nodes, nodes2, pos, order, order2, x, upd, h, u, l);
      }
    }
  }

  // ---- out ----

  /** nodes2 is nodes with d bypassed at each of its levels, where upd[l] points to it. */
  ghost predicate Bypassed(nodes: seq<Node>, nodes2: seq<Node>, upd: seq<int>, d: int) {
    && |nodes2| == |nodes| && 0 <= d < |nodes| && |nodes[d].fwd| <= |upd|
    && (forall u :: 0 <= u < |nodes| ==> Detoured(nodes, nodes2, upd, d, u))
  }

  ghost predicate Detoured(nodes: seq<Node>, nodes2: seq<Node>, upd: seq<int>, d: int, u: int)
    requires 0 <= u < |nodes| == |nodes2| && 0 <= d < |nodes| && |nodes[d].fwd| <= |upd|
  {
    && nodes2[u].key == nodes[u].key && nodes2[u].value == nodes[u].value
    && |nodes2[u].fwd| == |nodes[u].fwd|
    && (forall l {:trigger nodes2[u].fwd[l]} {:trigger nodes[u].fwd[l]} :: 0 <= l < |nodes[u].fwd| ==>
          nodes2[u].fwd[l] == if l < |nodes[d].fwd| && u == upd[l] then nodes[d].fwd[l] else nodes[u].fwd[l])
  }

  ghost predicate DeleteStep(nodes: seq<Node>, nodes2: seq<Node>, pos: seq<real>, order: seq<int>, order2: seq<int>,
                             upd: seq<int>, d: int) {
    && Ordered(nodes, pos, order) && AllLinked(nodes, pos, order)
    && Bypassed(nodes, nodes2, upd, d) && d in order
    && Ordered(nodes2, pos, order2)
    && (forall u {:trigger u in order} {:trigger u in order2} :: u in order2 <==> u in order && u != d)
    && (forall l {:trigger upd[l]} :: 0 <= l < |nodes[d].fwd| ==>
          Tall(nodes, order, upd[l], l) && nodes[upd[l]].fwd[l] == d)
  }

  lemma DeleteMembers(nodes: seq<Node>, pos: seq<real>, order: seq<int>, j: nat)
    requires Ordered(nodes, pos, order) && j < |order|
    ensures forall u {:trigger u in order} :: u in order[..j] + order[j + 1..] <==> u in order && u != order[j]
  {
    hide Rank;
    assert order == order[..j] + [order[j]] + order[j + 1..];
    assert forall m :: 0 <= m < |order| && m != j ==> pos[order[m]] != pos[order[j]];
  }

  lemma DeleteOrdered(nodes: seq<Node>, nodes2: seq<Node>, pos: seq<real>, order: seq<int>, j: nat, upd: seq<int>)
    requires Ordered(nodes, pos, order) && 0 < j < |order| && Bypassed(nodes, nodes2, upd, order[j])
    ensures Ordered(nodes2, pos, order[..j] + order[j + 1..])
    ensures forall u {:trigger u in order} :: u in order[..j] + order[j + 1..] <==> u in order && u != order[j]
  {
    hide Rank, Detoured;
    var order2 := order[..j] + order[j + 1..];
    DeleteMembers(nodes, pos, order, j);
    forall m | 0 <= m < |order| ensures nodes2[order[m]].key == nodes[order[m]].key {
      DetouredKey(nodes, nodes2, upd, order[j], order[m]);
    }
    forall k | 0 <= k < |order2| ensures order2[k] == order[if k < j then k else k + 1] {
    }
  }

  lemma DetouredKey(nodes: seq<Node>, nodes2: seq<Node>, upd: seq<int>, d: int, u: int)
    requires Bypassed(nodes, nodes2, upd, d) && 0 <= u < |nodes|
    ensures nodes2[u].key == nodes[u].key
  {
    assert Detoured(nodes, nodes2, upd, d, u);
  }

  lemma StillTall(nodes: seq<Node>, nodes2: seq<Node>, pos: seq<real>, order: seq<int>, order2: seq<int>,
                  upd: seq<int>, d: int, w: int, l: int)
    requires DeleteStep(nodes, nodes2, pos, order, order2, upd, d)
    ensures Tall(nodes2, order2, w, l) <==> w != d && Tall(nodes, order, w, l)
  {
    hide Rank;
    if 0 <= w < |nodes| {
      assert Detoured(nodes, nodes2, upd, d, w);
    }
  }

  /** Only one node of a level points to d. */
  lemma OnePredecessor(nodes: seq<Node>, pos: seq<real>, order: seq<int>, u: int, c: int, d: int, l: int)
    requires Ordered(nodes, pos, order) && AllLinked(nodes, pos, order) && d != NIL
    requires Tall(nodes, order, u, l) && nodes[u].fwd[l] == d
    requires Tall(nodes, order, c, l) && nodes[c].fwd[l] == d
    ensures u == c
  {
    hide Rank, Ordered;
    PosLength(nodes, pos, order);
    assert Linked(nodes, pos, order, c, l);
    assert Linked(nodes, pos, order, u, l);
    assert pos[u] == pos[c];
    SamePlace(nodes, pos, order, u, c);
  }

  lemma DeleteLinksCut(nodes: seq<Node>, nodes2: seq<Node>, pos: seq<real>, order: seq<int>, order2: seq<int>,
                       upd: seq<int>, d: int, l: int)
    requires DeleteStep(nodes, nodes2, pos, order, order2, upd, d)
    requires 0 <= l < |nodes[d].fwd| && Tall(nodes2, order2, upd[l], l)
    ensures Linked(nodes2, pos, order2, upd[l], l)
  {
    hide Rank, Ordered;
    PosLength(nodes, pos, order);
    var u := upd[l];
    StillTall(nodes, nodes2, pos, order, order2, upd, d, u, l);
    assert Linked(nodes, pos, order, u, l);
    assert Tall(nodes, order, d, l);
    assert Linked(nodes, pos, order, d, l);
    assert Detoured(nodes, nodes2, upd, d, u);
    var v := nodes[d].fwd[l];
    assert nodes2[u].fwd[l] == v;
    StillTall(nodes, nodes2, pos, order, order2, upd, d, v, l);
    forall w {:trigger Tall(nodes2, order2, w, l)} | Tall(nodes2, order2, w, l) && pos[u] < pos[w]
      ensures v != NIL && pos[v] <= pos[w]
    {
      StillTall(nodes, nodes2, pos, order, order2, upd, d, w, l);
      if pos[w] == pos[d] {
        SamePlace(nodes, pos, order, w, d);
      }
    }
  }

  lemma DeleteLinksRest(nodes: seq<Node>, nodes2: seq<Node>, pos: seq<real>, order: seq<int>, order2: seq<int>,
                        upd: seq<int>, d: int, u: int, l: int)
    requires DeleteStep(nodes, nodes2, pos, order, order2, upd, d)
    requires Tall(nodes2, order2, u, l) && !(l < |nodes[d].fwd| && u == upd[l])
    ensures Linked(nodes2, pos, order2, u, l)
  {
    hide Rank, Ordered;
    PosLength(nodes, pos, order);
    StillTall(nodes, nodes2, pos, order, order2, upd, d, u, l);
    assert Linked(nodes, pos, order, u, l);
    assert Detoured(nodes, nodes2, upd, d, u);
    var v := nodes[u].fwd[l];
    assert nodes2[u].fwd[l] == v;
    if v == d {
      OnePredecessor(nodes, pos, order, u, upd[l], d, l);
    }
    StillTall(nodes, nodes2, pos, order, order2, upd, d, v, l);
    forall w {:trigger Tall(nodes2, order2, w, l)} | Tall(nodes2, order2, w, l) && pos[u] < pos[w]
      ensures v != NIL && pos[v] <= pos[w]
    {
      StillTall(nodes, nodes2, pos, order, order2, upd, d, w, l);
    }
  }

  /** Bypassing a node keeps every level linked. */
  lemma DeleteLinks(nodes: seq<Node>, nodes2: seq<Node>, pos: seq<real>, order: seq<int>, order2: seq<int>,
                    upd: seq<int>, d: int)
    requires DeleteStep(nodes, nodes2, pos, order, order2, upd, d)
    ensures AllLinked(nodes2, pos, order2)
  {
    hide Rank, Ordered, Linked;
    forall u, l {:trigger Tall(nodes2, order2, u, l)} | Tall(nodes2, order2, u, l)
      ensures Linked(nodes2, pos, order2, u, l)
    {
      if l < |nodes[d].fwd| && u == upd[l] {
        DeleteLinksCut(nodes, nodes2, pos, order, order2, upd, d, l);
      } else {
        DeleteLinksRest(nodes, nodes2, pos, order, order2, upd, d, u, l);
      }
    }
  }
}
