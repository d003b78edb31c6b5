/**
 The ten circular doubly linked free lists, threaded through the first two payload words
 of the free blocks: word u of a node is its prev pointer, word u + 1 its next pointer.

 The lists are described without sequences: each listed block has a slot that says which list
 holds it and when it was pushed.  A push goes to the front, so a list is its blocks in order
 of decreasing push time.
 */
module FreeLists {

  const NUM_LISTS := 10
  const BASE := 22     // first word of the heap, behind the ten list heads

  /** Which list holds a block, and the time it was pushed. */
  datatype Slot = Slot(cls: int, rank: int)

  type Listed = map<int, Slot>

  function ListHead(c: int): int { 2 + 2 * c }

  /** u is a node of list c: its head or one of its blocks. */
  predicate Node(fl: Listed, c: int, u: int) {
    u == ListHead(c) || (u in fl && fl[u].cls == c)
  }

  // The head counts as newest when a walk leaves it and as oldest when a walk returns to it.
  function From(fl: Listed, stamp: int, u: int): int { if u in fl then fl[u].rank else stamp }
  function To(fl: Listed, u: int): int { if u in fl then fl[u].rank else -1 }

  ghost predicate Spaced(m: seq<int>, fl: Listed, stamp: int) {
    && BASE <= |m| && 0 <= stamp
    && (forall u :: u in fl ==> BASE < u < |m| - 1 && 0 <= fl[u].cls < NUM_LISTS && 0 <= fl[u].rank < stamp)
    && (forall u, v :: u in fl && v in fl && u < v ==> u + 2 <= v)
    && (forall u, v :: u in fl && v in fl && u != v ==> fl[u].rank != fl[v].rank)
  }

  /** The node after u is in the same list and points back at u. */
  ghost predicate NextOk(m: seq<int>, fl: Listed, stamp: int, c: int, u: int)
    requires Spaced(m, fl, stamp) && 0 <= c < NUM_LISTS && Node(fl, c, u)
  {
    Node(fl, c, m[u + 1]) && m[m[u + 1]] == u
  }

  /** The node before u is in the same list and points forward at u. */
  ghost predicate PrevOk(m: seq<int>, fl: Listed, stamp: int, c: int, u: int)
    requires Spaced(m, fl, stamp) && 0 <= c < NUM_LISTS && Node(fl, c, u)
  {
    Node(fl, c, m[u]) && m[m[u] + 1] == u
  }

  /** v is the newest node of list c that is older than u. */
  ghost predicate Follows(fl: Listed, stamp: int, c: int, u: int, v: int) {
    && To(fl, v) < From(fl, stamp, u)
    && forall b :: b in fl && fl[b].cls == c && fl[b].rank < From(fl, stamp, u) ==> fl[b].rank <= To(fl, v)
  }

  /** The two links of node u are inverse to its neighbours' and skip no block of the list. */
  ghost predicate Linked(m: seq<int>, fl: Listed, stamp: int, c: int, u: int)
    requires Spaced(m, fl, stamp) && 0 <= c < NUM_LISTS && Node(fl, c, u)
  {
    NextOk(m, fl, stamp, c, u) && PrevOk(m, fl, stamp, c, u) && Follows(fl, stamp, c, u, m[u + 1])
  }

  /** All ten lists are well linked. */
  ghost predicate Rings(m: seq<int>, fl: Listed, stamp: int) {
    && Spaced(m, fl, stamp)
    && forall c, u {:trigger Linked(m, fl, stamp, c, u)} ::
         0 <= c < NUM_LISTS && Node(fl, c, u) ==> Linked(m, fl, stamp, c, u)
  }

  /** m and m' differ at most in link words of the listed blocks and in the list heads. */
  ghost predicate SameOffLinks(m: seq<int>, m': seq<int>, fl: Listed) {
    && |m| == |m'|
    && forall i :: BASE <= i < |m| && i !in fl && i - 1 !in fl ==> m'[i] == m[i]
  }

  ghost predicate SameLinks(m: seq<int>, m': seq<int>, fl: Listed) {
    && |m| == |m'|
    && (forall i :: 0 <= i < BASE && i < |m| ==> m'[i] == m[i])
    && (forall u :: u in fl && 0 <= u < |m| - 1 ==> m'[u] == m[u] && m'[u + 1] == m[u + 1])
  }

  lemma RingsFrame(m: seq<int>, m': seq<int>, fl: Listed, stamp: int)
    requires Rings(m, fl, stamp) && SameLinks(m, m', fl)
    ensures Rings(m', fl, stamp)
  {
    forall c, u | 0 <= c < NUM_LISTS && Node(fl, c, u) ensures Linked(m', fl, stamp, c, u) {
      assert Linked(m, fl, stamp, c, u);
    }
  }

  // ---- list_erase and list_push_front on the memory words ----

  ghost function Erased(m: seq<int>, u: int): seq<int>
    requires 0 <= u < |m| - 1 && 0 <= m[u] < |m| - 1 && 0 <= m[u + 1] < |m|
  {
    m[m[u] + 1 := m[u + 1]][m[u + 1] := m[u]]
  }

  ghost function Pushed(m: seq<int>, h: int, u: int): seq<int>
    requires 0 <= u < |m| - 1 && 0 <= h < |m| - 1 && 0 <= m[h + 1] < |m|
  {
    m[u := h][u + 1 := m[h + 1]][m[h + 1] := u][h + 1 := u]
  }

  lemma LinksInRange(m: seq<int>, fl: Listed, stamp: int, c: int, u: int)
    requires Rings(m, fl, stamp) && 0 <= c < NUM_LISTS && Node(fl, c, u)
    ensures 2 <= u < |m| - 1 && 2 <= m[u] < |m| - 1 && 2 <= m[u + 1] < |m| - 1
  {
    assert Linked(m, fl, stamp, c, u);
  }

  lemma EraseSpaced(m: seq<int>, fl: Listed, stamp: int, x: int)
    requires Rings(m, fl, stamp) && x in fl
    requires 0 <= m[x] < |m| - 1 && 0 <= m[x + 1] < |m|
    ensures Spaced(Erased(m, x), fl - {x}, stamp)
  {
  }

  /** A link word of one node is never the first link word of another. */
  lemma NodesApart(m: seq<int>, fl: Listed, stamp: int, c: int, u: int, d: int, v: int)
    requires Spaced(m, fl, stamp) && 0 <= c < NUM_LISTS && Node(fl, c, u) && 0 <= d < NUM_LISTS && Node(fl, d, v)
    ensures u + 1 != v && v + 1 != u && 2 <= u < |m| - 1 && 2 <= v < |m| - 1
  {
  }

  /** The links of a node, with the definitions folded away. */
  lemma LinksOf(m: seq<int>, fl: Listed, stamp: int, c: int, u: int)
    requires Rings(m, fl, stamp) && 0 <= c < NUM_LISTS && Node(fl, c, u)
    ensures 2 <= u < |m| - 1 && 2 <= m[u] < |m| - 1 && 2 <= m[u + 1] < |m| - 1
    ensures Node(fl, c, m[u + 1]) && m[m[u + 1]] == u && Node(fl, c, m[u]) && m[m[u] + 1] == u
  {
    assert Linked(m, fl, stamp, c, u);
  }

  lemma RingsSpaced(m: seq<int>, fl: Listed, stamp: int)
    requires Rings(m, fl, stamp)
    ensures Spaced(m, fl, stamp)
  {
  }

  /** A block is a node of its own list only. */
  lemma NodeOfOne(m: seq<int>, fl: Listed, stamp: int, x: int, c: int, u: int)
    requires Spaced(m, fl, stamp) && x in fl && 0 <= c < NUM_LISTS
    ensures 0 <= fl[x].cls < NUM_LISTS && Node(fl, fl[x].cls, x)
    ensures Node(fl - {x}, c, u) <==> Node(fl, c, u) && u != x
  {
  }

  /** The words after an erasure. */
  lemma ErasedAt(m: seq<int>, x: int, i: int)
    requires 0 <= x < |m| - 1 && 0 <= m[x] < |m| - 1 && 0 <= m[x + 1] < |m| && 0 <= i < |m|
    ensures |Erased(m, x)| == |m|
    ensures Erased(m, x)[i] == if i == m[x + 1] then m[x] else if i == m[x] + 1 then m[x + 1] else m[i]
  {
  }

  lemma EraseNext(m: seq<int>, fl: Listed, stamp: int, x: int, c: int, u: int)
    requires Rings(m, fl, stamp) && x in fl && 0 <= c < NUM_LISTS && Node(fl - {x}, c, u)
    requires 0 <= m[x] < |m| - 1 && 0 <= m[x + 1] < |m|
    requires Spaced(Erased(m, x), fl - {x}, stamp)
    ensures NextOk(Erased(m, x), fl - {x}, stamp, c, u)
  {
    hide Rings, Spaced, Node, Erased;
    RingsSpaced(m, fl, stamp);
    var k, p, n := fl[x].cls, m[x], m[x + 1];
    NodeOfOne(m, fl, stamp, x, c, u);
    LinksOf(m, fl, stamp, k, x);
    LinksOf(m, fl, stamp, c, u);
    NodesApart(m, fl, stamp, c, u, k, n);
    ErasedAt(m, x, u + 1);
    if u == p {
      ErasedAt(m, x, n);
      NodeOfOne(m, fl, stamp, x, k, n);
      assert n != x;
      SameList(m, fl, stamp, c, k, u);
    } else {
      var v := m[u + 1];
      NodeOfOne(m, fl, stamp, x, c, v);
      NodesApart(m, fl, stamp, k, p, c, v);
      ErasedAt(m, x, v);
    }
  }

  /** A node that is not the end of two lists at once. */
  lemma SameList(m: seq<int>, fl: Listed, stamp: int, c: int, k: int, u: int)
    requires Spaced(m, fl, stamp) && 0 <= c < NUM_LISTS && 0 <= k < NUM_LISTS && Node(fl, c, u) && Node(fl, k, u)
    ensures c == k
  {
  }

  lemma ErasePrev(m: seq<int>, fl: Listed, stamp: int, x: int, c: int, u: int)
    requires Rings(m, fl, stamp) && x in fl && 0 <= c < NUM_LISTS && Node(fl - {x}, c, u)
    requires 0 <= m[x] < |m| - 1 && 0 <= m[x + 1] < |m|
    requires Spaced(Erased(m, x), fl - {x}, stamp)
    ensures PrevOk(Erased(m, x), fl - {x}, stamp, c, u)
  {
    hide Rings, Spaced, Node, Erased;
    RingsSpaced(m, fl, stamp);
    var k, p, n := fl[x].cls, m[x], m[x + 1];
    NodeOfOne(m, fl, stamp, x, c, u);
    LinksOf(m, fl, stamp, k, x);
    LinksOf(m, fl, stamp, c, u);
    NodesApart(m, fl, stamp, k, p, c, u);
    ErasedAt(m, x, u);
    if u == n {
      NodesApart(m, fl, stamp, k, p, k, n);
      ErasedAt(m, x, p + 1);
      NodeOfOne(m, fl, stamp, x, k, p);
      SameList(m, fl, stamp, c, k, u);
    } else {
      var v := m[u];
      NodeOfOne(m, fl, stamp, x, c, v);
      NodesApart(m, fl, stamp, c, v, k, n);
      ErasedAt(m, x, v + 1);
    }
  }

  lemma FollowsOf(m: seq<int>, fl: Listed, stamp: int, c: int, u: int)
    requires Rings(m, fl, stamp) && 0 <= c < NUM_LISTS && Node(fl, c, u)
    ensures 2 <= u < |m| - 1 && Follows(fl, stamp, c, u, m[u + 1])
  {
    assert Linked(m, fl, stamp, c, u);
  }

  /** Without x, what follows x follows what x followed. */
  lemma FollowsPast(m: seq<int>, fl: Listed, stamp: int, c: int, u: int, x: int, n: int)
    requires Spaced(m, fl, stamp) && x in fl && u != x && n != x
    requires Follows(fl, stamp, c, u, x) && Follows(fl, stamp, c, x, n)
    ensures Follows(fl - {x}, stamp, c, u, n)
  {
  }

  lemma FollowsWithout(fl: Listed, stamp: int, c: int, u: int, x: int, v: int)
    requires Follows(fl, stamp, c, u, v) && u != x && v != x
    ensures Follows(fl - {x}, stamp, c, u, v)
  {
  }

  lemma EraseFollows(m: seq<int>, fl: Listed, stamp: int, x: int, c: int, u: int)
    requires Rings(m, fl, stamp) && x in fl && 0 <= c < NUM_LISTS && Node(fl - {x}, c, u)
    requires 0 <= m[x] < |m| - 1 && 0 <= m[x + 1] < |m|
    ensures Follows(fl - {x}, stamp, c, u, Erased(m, x)[u + 1])
  {
    hide Rings, Spaced, Node, Erased, Follows;
    RingsSpaced(m, fl, stamp);
    var k, p, n := fl[x].cls, m[x], m[x + 1];
    NodeOfOne(m, fl, stamp, x, c, u);
    LinksOf(m, fl, stamp, k, x);
    LinksOf(m, fl, stamp, c, u);
    NodesApart(m, fl, stamp, c, u, k, n);
    ErasedAt(m, x, u + 1);
    FollowsOf(m, fl, stamp, c, u);
    if u == p {
      SameList(m, fl, stamp, c, k, u);
      FollowsOf(m, fl, stamp, k, x);
      FollowsPast(m, fl, stamp, c, u, x, n);
    } else {
      FollowsWithout(fl, stamp, c, u, x, m[u + 1]);
    }
  }

  /** list_erase takes a block out of whichever list holds it and leaves ten well-linked lists. */
  lemma EraseRings(m: seq<int>, fl: Listed, stamp: int, x: int)
    requires Rings(m, fl, stamp) && x in fl
    ensures 2 <= m[x] < |m| - 1 && 2 <= m[x + 1] < |m| - 1 && m[x] != x && m[x] + 1 != x
    ensures Rings(Erased(m, x), fl - {x}, stamp)
    ensures SameOffLinks(m, Erased(m, x), fl)
  {
    assert Linked(m, fl, stamp, fl[x].cls, x);
    LinksInRange(m, fl, stamp, fl[x].cls, x);
    EraseSpaced(m, fl, stamp, x);
    forall c, u | 0 <= c < NUM_LISTS && Node(fl - {x}, c, u)
      ensures Linked(Erased(m, x), fl - {x}, stamp, c, u)
    {
      EraseNext(m, fl, stamp, x, c, u);
      ErasePrev(m, fl, stamp, x, c, u);
      EraseFollows(m, fl, stamp, x, c, u);
    }
  }

  ghost predicate Insertable(m: seq<int>, fl: Listed, x: int) {
    && BASE < x < |m| - 1 && x !in fl
    && forall u :: u in fl ==> u + 2 <= x || x + 2 <= u
  }

  lemma PushSpaced(m: seq<int>, fl: Listed, stamp: int, x: int, k: int)
    requires Rings(m, fl, stamp) && Insertable(m, fl, x) && 0 <= k < NUM_LISTS
    requires 0 <= m[ListHead(k) + 1] < |m|
    ensures Spaced(Pushed(m, ListHead(k), x), fl[x := Slot(k, stamp)], stamp + 1)
  {
  }

  /** The words after a push. */
  lemma PushedAt(m: seq<int>, h: int, x: int, i: int)
    requires 0 <= x < |m| - 1 && 0 <= h < |m| - 1 && 0 <= m[h + 1] < |m| && 0 <= i < |m|
    ensures |Pushed(m, h, x)| == |m|
    ensures Pushed(m, h, x)[i]
         == if i == h + 1 then x else if i == m[h + 1] then x else if i == x + 1 then m[h + 1] else if i == x then h else m[i]
  {
  }

  /** A node of the lists with x added: x itself, in list k, or an old node, and those are away from x. */
  lemma NodeOfMore(m: seq<int>, fl: Listed, stamp: int, x: int, k: int, c: int, u: int)
    requires Spaced(m, fl, stamp) && Insertable(m, fl, x) && 0 <= k < NUM_LISTS && 0 <= c < NUM_LISTS
    ensures Node(fl[x := Slot(k, stamp)], c, u) <==> if u == x then c == k else Node(fl, c, u)
    ensures Node(fl, c, u) ==> u != x && u + 1 != x && x + 1 != u && 2 <= u < |m| - 1
    ensures Node(fl, k, ListHead(k)) && BASE < x < |m| - 1
  {
  }

  lemma PushNext(m: seq<int>, fl: Listed, stamp: int, x: int, k: int, m': seq<int>, fl': Listed, c: int, u: int)
    requires Rings(m, fl, stamp) && Insertable(m, fl, x) && 0 <= k < NUM_LISTS
    requires 0 <= m[ListHead(k) + 1] < |m|
    requires m' == Pushed(m, ListHead(k), x) && fl' == fl[x := Slot(k, stamp)]
    requires Spaced(m', fl', stamp + 1) && 0 <= c < NUM_LISTS && Node(fl', c, u)
    ensures NextOk(m', fl', stamp + 1, c, u)
  {
    hide Rings, Spaced, Node, Pushed, Insertable, ListHead;
    RingsSpaced(m, fl, stamp);
    var h := ListHead(k);
    NodeOfMore(m, fl, stamp, x, k, c, u);
    NodeOfMore(m, fl, stamp, x, k, k, h);
    LinksOf(m, fl, stamp, k, h);
    var n := m[h + 1];
    NodeOfMore(m, fl, stamp, x, k, k, n);
    NodesApart(m, fl, stamp, k, h, k, n);
    if u == x {
      PushedAt(m, h, x, x + 1);
      PushedAt(m, h, x, n);
    } else {
      LinksOf(m, fl, stamp, c, u);
      NodesApart(m, fl, stamp, c, u, k, n);
      PushedAt(m, h, x, u + 1);
      var v := m[u + 1];
      if u == h {
        SameList(m, fl, stamp, c, k, u);
        PushedAt(m, h, x, x);
        NodeOfMore(m, fl, stamp, x, k, k, x);
      } else {
        NodeOfMore(m, fl, stamp, x, k, c, v);
        NodesApart(m, fl, stamp, k, h, c, v);
        PushedAt(m, h, x, v);
      }
    }
  }

  lemma PushPrev(m: seq<int>, fl: Listed, stamp: int, x: int, k: int, m': seq<int>, fl': Listed, c: int, u: int)
    requires Rings(m, fl, stamp) && Insertable(m, fl, x) && 0 <= k < NUM_LISTS
    requires 0 <= m[ListHead(k) + 1] < |m|
    requires m' == Pushed(m, ListHead(k), x) && fl' == fl[x := Slot(k, stamp)]
    requires Spaced(m', fl', stamp + 1) && 0 <= c < NUM_LISTS && Node(fl', c, u)
    ensures PrevOk(m', fl', stamp + 1, c, u)
  {
    hide Rings, Spaced, Node, Pushed, Insertable, ListHead;
    RingsSpaced(m, fl, stamp);
    var h := ListHead(k);
    NodeOfMore(m, fl, stamp, x, k, c, u);
    NodeOfMore(m, fl, stamp, x, k, k, h);
    LinksOf(m, fl, stamp, k, h);
    var n := m[h + 1];
    NodeOfMore(m, fl, stamp, x, k, k, n);
    NodesApart(m, fl, stamp, k, h, k, n);
    if u == x {
      PushedAt(m, h, x, x);
      PushedAt(m, h, x, h + 1);
    } else {
      LinksOf(m, fl, stamp, c, u);
      NodesApart(m, fl, stamp, k, h, c, u);
      PushedAt(m, h, x, u);
      if u == n {
        SameList(m, fl, stamp, c, k, u);
        PushedAt(m, h, x, x + 1);
        NodeOfMore(m, fl, stamp, x, k, k, x);
      } else {
        var v := m[u];
        NodeOfMore(m, fl, stamp, x, k, c, v);
        NodesApart(m, fl, stamp, c, v, k, n);
        PushedAt(m, h, x, v + 1);
      }
    }
  }

  /** A new node is followed by what followed the head, and follows the head. */
  lemma FollowsFirst(m: seq<int>, fl: Listed, stamp: int, c: int, h: int, x: int, n: int)
    requires Spaced(m, fl, stamp) && x !in fl && h !in fl && n != x && Follows(fl, stamp, c, h, n)
    ensures Follows(fl[x := Slot(c, stamp)], stamp + 1, c, x, n)
    ensures h != x ==> Follows(fl[x := Slot(c, stamp)], stamp + 1, c, h, x)
  {
  }

  lemma FollowsStill(m: seq<int>, fl: Listed, stamp: int, c: int, u: int, v: int, x: int, k: int)
    requires Spaced(m, fl, stamp) && x !in fl && u != x && v != x && Follows(fl, stamp, c, u, v) && (u in fl || c != k)
    ensures Follows(fl[x := Slot(k, stamp)], stamp + 1, c, u, v)
  {
  }

  lemma HeadsUnlisted(m: seq<int>, fl: Listed, stamp: int, k: int, c: int, u: int, x: int)
    requires Spaced(m, fl, stamp) && 0 <= k < NUM_LISTS && 0 <= c < NUM_LISTS && Node(fl, c, u) && Insertable(m, fl, x)
    ensures ListHead(k) !in fl && x !in fl && (u in fl || u == ListHead(c)) && (ListHead(c) == ListHead(k) ==> c == k)
  {
  }

  lemma PushFollows(m: seq<int>, fl: Listed, stamp: int, x: int, k: int, m': seq<int>, fl': Listed, c: int, u: int)
    requires Rings(m, fl, stamp) && Insertable(m, fl, x) && 0 <= k < NUM_LISTS
    requires 0 <= m[ListHead(k) + 1] < |m|
    requires m' == Pushed(m, ListHead(k), x) && fl' == fl[x := Slot(k, stamp)]
    requires 0 <= c < NUM_LISTS && Node(fl', c, u)
    ensures Follows(fl', stamp + 1, c, u, m'[u + 1])
  {
    hide Rings, Spaced, Node, Pushed, Insertable, ListHead, Follows;
    RingsSpaced(m, fl, stamp);
    var h := ListHead(k);
    NodeOfMore(m, fl, stamp, x, k, c, u);
    NodeOfMore(m, fl, stamp, x, k, k, h);
    HeadsUnlisted(m, fl, stamp, k, k, h, x);
    LinksOf(m, fl, stamp, k, h);
    FollowsOf(m, fl, stamp, k, h);
    var n := m[h + 1];
    NodeOfMore(m, fl, stamp, x, k, k, n);
    FollowsFirst(m, fl, stamp, k, h, x, n);
    NodesApart(m, fl, stamp, k, h, k, n);
    if u == x {
      PushedAt(m, h, x, x + 1);
    } else {
      LinksOf(m, fl, stamp, c, u);
      NodesApart(m, fl, stamp, c, u, k, n);
      PushedAt(m, h, x, u + 1);
      if u == h {
        SameList(m, fl, stamp, c, k, u);
      } else {
        HeadsUnlisted(m, fl, stamp, k, c, u, x);
        FollowsOf(m, fl, stamp, c, u);
        NodeOfMore(m, fl, stamp, x, k, c, m[u + 1]);
        FollowsStill(m, fl, stamp, c, u, m[u + 1], x, k);
      }
    }
  }

  lemma PushLinked(m: seq<int>, fl: Listed, stamp: int, x: int, k: int, m': seq<int>, fl': Listed)
    requires Rings(m, fl, stamp) && Insertable(m, fl, x) && 0 <= k < NUM_LISTS
    requires 0 <= m[ListHead(k) + 1] < |m|
    requires m' == Pushed(m, ListHead(k), x) && fl' == fl[x := Slot(k, stamp)]
    ensures Rings(m', fl', stamp + 1)
  {
    PushSpaced(m, fl, stamp, x, k);
    forall c, u | 0 <= c < NUM_LISTS && Node(fl', c, u) ensures Linked(m', fl', stamp + 1, c, u) {
      PushNext(m, fl, stamp, x, k, m', fl', c, u);
      PushPrev(m, fl, stamp, x, k, m', fl', c, u);
      PushFollows(m, fl, stamp, x, k, m', fl', c, u);
    }
  }

  /** list_push_front puts a block that is in no list at the front of list k. */
  lemma PushRings(m: seq<int>, fl: Listed, stamp: int, x: int, k: int)
    requires Rings(m, fl, stamp) && Insertable(m, fl, x) && 0 <= k < NUM_LISTS
    ensures 2 <= m[ListHead(k) + 1] < |m| - 1
    ensures Rings(Pushed(m, ListHead(k), x), fl[x := Slot(k, stamp)], stamp + 1)
    ensures SameOffLinks(m, Pushed(m, ListHead(k), x), fl[x := Slot(k, stamp)])
  {
    LinksInRange(m, fl, stamp, k, ListHead(k));
    assert Linked(m, fl, stamp, k, ListHead(k));
    PushLinked(m, fl, stamp, x, k, Pushed(m, ListHead(k), x), fl[x := Slot(k, stamp)]);
  }

  // ---- what a walk along the next pointers sees ----

  /** The blocks met by following next pointers from node u until the head of list c comes round. */
  ghost function Walk(m: seq<int>, fl: Listed, stamp: int, c: int, u: int): (w: seq<int>)
    requires Rings(m, fl, stamp) && 0 <= c < NUM_LISTS && Node(fl, c, u)
    decreases From(fl, stamp, u)
  {
    assert Linked(m, fl, stamp, c, u);
    var v := m[u + 1];
    if v == ListHead(c) then [] else [v] + Walk(m, fl, stamp, c, v)
  }

  /** A walk from u meets exactly the blocks of the list pushed before u, newest first, each once. */
  lemma {:induction false} WalkVisits(m: seq<int>, fl: Listed, stamp: int, c: int, u: int)
    requires Rings(m, fl, stamp) && 0 <= c < NUM_LISTS && Node(fl, c, u)
    ensures var w := Walk(m, fl, stamp, c, u);
      && (forall b :: b in w <==> b in fl && fl[b].cls == c && fl[b].rank < From(fl, stamp, u))
      && (forall i, j :: 0 <= i < j < |w| && w[i] in fl && w[j] in fl ==> fl[w[j]].rank < fl[w[i]].rank)
    decreases From(fl, stamp, u)
  {
    assert Linked(m, fl, stamp, c, u);
    var v := m[u + 1];
    if v != ListHead(c) {
      WalkVisits(m, fl, stamp, c, v);
      var t := Walk(m, fl, stamp, c, v);
      assert Walk(m, fl, stamp, c, u) == [v] + t;
      assert forall b :: b in [v] + t <==> b == v || b in t;
      assert forall b :: b in fl && fl[b].cls == c && fl[b].rank < From(fl, stamp, u) ==>
                           b == v || fl[b].rank < fl[v].rank;
      assert forall j :: 0 <= j < |t| ==> t[j] in t;
    }
  }

  /** From its head, each of the ten lists is walked through all of its blocks, each exactly once. */
  lemma ListHoldsExactly(m: seq<int>, fl: Listed, stamp: int, c: int)
    requires Rings(m, fl, stamp) && 0 <= c < NUM_LISTS
    ensures var w := Walk(m, fl, stamp, c, ListHead(c));
      && (forall b :: b in w <==> b in fl && fl[b].cls == c)
      && (forall i, j :: 0 <= i < j < |w| ==> w[i] != w[j])
  {
    WalkVisits(m, fl, stamp, c, ListHead(c));
  }
}
