/** How the tags, the links and the payloads share the heap's words without disturbing each other. */
module HeapState {
  import opened HeapBlocks
  import opened FreeLists
  import opened SizeClasses

  /** The lists hold exactly the free blocks. */
  ghost predicate FreeListed(blk: Blocks, fl: Listed) {
    forall b :: b in fl <==> IsFree(blk, b)
  }

  /** Each listed block is in the list of its size class. */
  ghost predicate Classed(blk: Blocks, fl: Listed) {
    forall b :: b in fl && b in blk && blk[b].n >= 1 ==> fl[b].cls == ClassOf(4 * blk[b].n)
  }

  /** The words m hold the block map and the free lists. */
  ghost predicate WellFormed(m: seq<int>, blk: Blocks, fl: Listed, stamp: int, tail: int) {
    Shape(blk, tail) && Stored(m, blk, tail) && Rings(m, fl, stamp) && FreeListed(blk, fl)
  }

  // ---- tags are not links, links are not payload ----

  lemma TagsOffLinks(blk: Blocks, tail: int, fl: Listed, b: int)
    requires Tiled(blk, tail) && FreeListed(blk, fl) && b in blk
    ensures b - 1 !in fl && b - 2 !in fl
    ensures blk[b].n >= 4 ==> b + blk[b].n - 2 !in fl && b + blk[b].n - 3 !in fl
  {
    assert forall f :: f in fl ==> IsFree(blk, f) && f != HEAD && f != tail && blk[f].n >= 4;
  }

  /** A word inside block x is outside the payload of every other block. */
  lemma OutsidePayload(blk: Blocks, x: int, i: int, b: int)
    requires Apart(blk) && x in blk && b in blk && b != x && blk[b].n >= 1 && blk[x].n >= 0
    requires x - 1 <= i < x + blk[x].n - 1 || i == x - 1
    ensures !(b <= i < b + blk[b].n - 1)
  {
  }

  /** When x itself is in no list, no word inside block x is a link. */
  lemma InsideOffLinks(blk: Blocks, tail: int, fl: Listed, x: int, i: int)
    requires Tiled(blk, tail) && x in blk && x !in fl && forall f :: f in fl ==> IsFree(blk, f)
    requires x - 1 <= i < x + blk[x].n - 1 || i == x - 1
    ensures i !in fl && i - 1 !in fl && i >= BASE
  {
    assert forall f :: f in fl ==> f != HEAD && f != tail && blk[f].n >= 4;
  }

  /** A block in no list can be pushed. */
  lemma CanInsert(m: seq<int>, blk: Blocks, tail: int, fl: Listed, x: int)
    requires Tiled(blk, tail) && x in blk && x !in fl && forall f :: f in fl ==> IsFree(blk, f)
    requires x != tail && x != HEAD && tail <= |m|
    ensures Insertable(m, fl, x)
  {
    assert forall f :: f in fl ==> f != HEAD && f != tail && blk[f].n >= 4;
    assert Next(blk, x) in blk;
  }

  /** What place leaves behind. */
  ghost function Taken(blk: Blocks, b: int, k: int): Blocks
    requires b in blk && Next(blk, b) in blk && blk[b].n != 0
  {
    if blk[b].n < k + 4 then Mark(blk, b, true)
    else blk[b := Hdr(k, true, true)][b + k := Hdr(blk[b].n - k, true, false)]
  }

  lemma TakenShape(blk: Blocks, tail: int, b: int, k: int)
    requires Shape(blk, tail) && Coalesced(blk) && IsFree(blk, b) && k % 2 == 0 && 4 <= k <= blk[b].n
    ensures Next(blk, b) in blk && blk[Next(blk, b)].alloc && blk[b].prev && b != tail && b != HEAD
    ensures Shape(Taken(blk, b, k), tail) && Coalesced(Taken(blk, b, k))
    ensures blk[b].n >= k + 4 ==> b + k !in blk
  {
    FreeNeighbours(blk, tail, b);
    if blk[b].n < k + 4 {
      MarkShape(blk, tail, b, true);
    } else {
      TakenSplit(blk, tail, b, k);
    }
    TakenCoalesced(blk, tail, b, k);
  }

  /** A free block lies between allocated ones. */
  lemma FreeNeighbours(blk: Blocks, tail: int, b: int)
    requires Tiled(blk, tail) && Coalesced(blk) && IsFree(blk, b)
    ensures Next(blk, b) in blk && blk[Next(blk, b)].alloc && blk[b].prev && b != tail && b != HEAD
  {
    assert Next(blk, b) in blk;
  }

  lemma TakenSplit(blk: Blocks, tail: int, b: int, k: int)
    requires Shape(blk, tail) && b in blk && b != tail && b != HEAD && k % 2 == 0 && 4 <= k <= blk[b].n - 4
    requires IsFree(blk, b) && blk[b].prev
    ensures Next(blk, b) in blk && b + k !in blk && Shape(Taken(blk, b, k), tail)
  {
    hide Tiled, Aligned;
    SplitShape(blk, tail, b, k);
    var blk1 := Split(blk, b, k);
    MarkShape(blk1, tail, b, true);
    assert Next(blk1, b) == b + k;
    assert Mark(blk1, b, true) == Taken(blk, b, k);
  }

  lemma TakenCoalesced(blk: Blocks, tail: int, b: int, k: int)
    requires Tiled(blk, tail) && Coalesced(blk) && IsFree(blk, b) && 4 <= k <= blk[b].n && Next(blk, b) in blk
    requires blk[Next(blk, b)].alloc && blk[b].prev
    ensures Coalesced(Taken(blk, b, k))
  {
    hide Tiled;
  }

  lemma OutsideBlock(blk: Blocks, x: int, b: int)
    requires Apart(blk) && x in blk && b in blk && b != x
    ensures b + blk[b].n <= x || x + blk[x].n <= b
  {
  }

  lemma OutsideHeader(blk: Blocks, x: int, b: int)
    requires Apart(blk) && x in blk && b in blk && blk[b].n >= 1
    ensures !(b <= x - 1 < b + blk[b].n - 1)
  {
  }

  lemma StoredOffLinks(m: seq<int>, m': seq<int>, blk: Blocks, tail: int, fl: Listed)
    requires Tiled(blk, tail) && Stored(m, blk, tail) && FreeListed(blk, fl) && SameOffLinks(m, m', fl)
    ensures Stored(m', blk, tail)
  {
    forall b | b in blk ensures Tags(m', blk, b, 0) {
      TagsOffLinks(blk, tail, fl, b);
      assert Tags(m, blk, b, 0);
    }
  }

  /** List operations touch no live payload. */
  lemma KeptOffLinks(m: seq<int>, m': seq<int>, blk: Blocks, tail: int, fl: Listed)
    requires Tiled(blk, tail) && FreeListed(blk, fl) && SameOffLinks(m, m', fl)
    ensures AllKept(blk, tail, m, blk, m', {})
  {
    forall b, i | IsLive(blk, tail, b) && b <= i < b + blk[b].n - 1 && 0 <= i < |m| ensures m'[i] == m[i] {
      if i in fl {
        OutsidePayload(blk, i, i, b);
      } else if i - 1 in fl {
        OutsidePayload(blk, i - 1, i, b);
      }
    }
  }

  /** One word written inside block x leaves the payloads of the other live blocks alone. */
  lemma KeptStore(m: seq<int>, blk: Blocks, tail: int, x: int, i: int, v: int)
    requires Tiled(blk, tail) && x in blk && 0 <= i < |m|
    requires x - 1 <= i < x + blk[x].n - 1 || i == x - 1
    ensures AllKept(blk, tail, m, blk, m[i := v], {x})
  {
    forall b | IsLive(blk, tail, b) && b != x ensures Kept(blk, m, blk, m[i := v], b) {
      OutsidePayload(blk, x, i, b);
    }
  }

  lemma KeptSelf(blk: Blocks, tail: int, m: seq<int>)
    ensures AllKept(blk, tail, m, blk, m, {})
  {
  }

  lemma KeptTrans(blk: Blocks, tail: int, m: seq<int>, blk1: Blocks, tail1: int, m1: seq<int>,
                  blk2: Blocks, m2: seq<int>, ex: set<int>, ex1: set<int>)
    requires |m| == |m1| == |m2|
    requires AllKept(blk, tail, m, blk1, m1, ex) && AllKept(blk1, tail1, m1, blk2, m2, ex1)
    requires ex1 <= ex && forall b :: IsLive(blk, tail, b) ==> b != tail1
    ensures AllKept(blk, tail, m, blk2, m2, ex)
  {
    forall b | IsLive(blk, tail, b) && b !in ex ensures Kept(blk, m, blk2, m2, b) {
      assert Kept(blk, m, blk1, m1, b);
      assert IsLive(blk1, tail1, b);
      assert Kept(blk1, m1, blk2, m2, b);
    }
  }

  // ---- the tag writes of each operation, as changes of the block map ----

  /**
   coalesce: the free block b now reaches to the end of the free block z; its header and the
   footer at the end of z are rewritten, and the swallowed blocks leave the lists.
   */
  lemma AbsorbTags(m: seq<int>, m1: seq<int>, m': seq<int>, blk: Blocks, blk': Blocks, tail: int, fl: Listed,
                   b: int, z: int, y: int, c: int)
    requires Tiled(blk, tail) && StoredBut(m, blk, tail, y) && FreeListed(blk, fl) && Tiled(blk', tail)
    requires blk'.Keys <= blk.Keys && IsFree(blk', b) && IsFree(blk, z) && !IsFree(blk', y)
    requires forall c :: c in blk' && c != b ==> blk'[c] == blk[c]
    requires b + blk'[b].n == z + blk[z].n && z + blk[z].n <= tail
    requires m1 == m[b - 1 := Encode(blk'[b])][b + blk'[b].n - 2 := Encode(blk'[b])] && SameOffLinks(m1, m', fl)
    requires c in blk'
    ensures Tags(m', blk', c, 0)
  {
    TagsOffLinks(blk, tail, fl, c);
    assert Tags(m, blk, c, y);
    if c == b {
      TagsOffLinks(blk, tail, fl, z);
    } else {
      assert c < b ==> c + blk'[c].n <= b;
      assert c > b ==> c >= b + blk'[b].n;
    }
  }

  lemma AbsorbStored(m: seq<int>, m1: seq<int>, m': seq<int>, blk: Blocks, blk': Blocks, tail: int, fl: Listed,
                     b: int, z: int, y: int)
    requires Tiled(blk, tail) && StoredBut(m, blk, tail, y) && FreeListed(blk, fl) && Tiled(blk', tail)
    requires blk'.Keys <= blk.Keys && IsFree(blk', b) && IsFree(blk, z) && !IsFree(blk', y)
    requires forall c :: c in blk' && c != b ==> blk'[c] == blk[c]
    requires b + blk'[b].n == z + blk[z].n && z + blk[z].n <= tail
    requires m1 == m[b - 1 := Encode(blk'[b])][b + blk'[b].n - 2 := Encode(blk'[b])] && SameOffLinks(m1, m', fl)
    ensures Stored(m', blk', tail)
  {
    forall c | c in blk' ensures Tags(m', blk', c, 0) {
      AbsorbTags(m, m1, m', blk, blk', tail, fl, b, z, y, c);
    }
  }

  lemma AbsorbKept(m: seq<int>, m1: seq<int>, m': seq<int>, blk: Blocks, blk': Blocks, tail: int, fl: Listed, b: int, z: int)
    requires Tiled(blk, tail) && FreeListed(blk, fl) && tail <= |m|
    requires b in blk' && IsFree(blk, b) && IsFree(blk, z)
    requires forall c :: IsLive(blk, tail, c) ==> c in blk' && blk'[c] == blk[c]
    requires b + blk'[b].n == z + blk[z].n
    requires m1 == m[b - 1 := Encode(blk'[b])][b + blk'[b].n - 2 := Encode(blk'[b])] && SameOffLinks(m1, m', fl)
    ensures AllKept(blk, tail, m, blk', m', {})
  {
    var e := Encode(blk'[b]);
    KeptStore(m, blk, tail, b, b - 1, e);
    KeptStore(m[b - 1 := e], blk, tail, z, z + blk[z].n - 2, e);
    KeptOffLinks(m1, m', blk, tail, fl);
    forall c | IsLive(blk, tail, c) ensures Kept(blk, m, blk', m', c) {
      assert Kept(blk, m, blk, m[b - 1 := e], c);
      assert Kept(blk, m[b - 1 := e], blk, m1, c);
      assert Kept(blk, m1, blk, m', c);
    }
  }

  /** place without a split: the header of b and the P bit of its successor. */
  lemma TakeStored(m: seq<int>, m': seq<int>, blk: Blocks, tail: int, b: int)
    requires Tiled(blk, tail) && Stored(m, blk, tail) && IsFree(blk, b) && Next(blk, b) in blk
    requires blk[Next(blk, b)].alloc && b != tail
    requires b <= |m| && Next(blk, b) <= |m|
    requires m' == m[b - 1 := Encode(blk[b].(alloc := true))]
                    [Next(blk, b) - 1 := Encode(blk[Next(blk, b)].(prev := true))]
    ensures Stored(m', Mark(blk, b, true), tail)
    ensures AllKept(blk, tail, m, Mark(blk, b, true), m', {})
  {
    var x := Next(blk, b);
    var blk' := Mark(blk, b, true);
    var m1 := m[b - 1 := Encode(blk[b].(alloc := true))];
    forall c | c in blk' ensures Tags(m', blk', c, 0) {
      assert Tags(m, blk, c, 0);
    }
    KeptStore(m, blk, tail, b, b - 1, Encode(blk[b].(alloc := true)));
    forall c | IsLive(blk, tail, c) ensures Kept(blk, m, blk', m', c) {
      assert Kept(blk, m, blk, m1, c);
      OutsideHeader(blk, x, c);
    }
  }

  /** place with a split: b shrinks to k words and is taken, the rest stays free. */
  lemma CutTags(m: seq<int>, m': seq<int>, blk: Blocks, blk': Blocks, tail: int, b: int, k: int, c: int)
    requires Tiled(blk, tail) && Stored(m, blk, tail) && IsFree(blk, b) && 4 <= k <= blk[b].n - 4 && blk[b].prev
    requires b + k !in blk && b + blk[b].n - 2 < |m|
    requires blk' == blk[b := Hdr(k, true, true)][b + k := Hdr(blk[b].n - k, true, false)]
    requires m' == m[b - 1 := Encode(Hdr(k, true, true))][b + k - 1 := Encode(blk'[b + k])]
                    [b + blk[b].n - 2 := Encode(blk'[b + k])]
    requires c in blk'
    ensures Tags(m', blk', c, 0)
  {
    if c != b && c != b + k {
      assert Tags(m, blk, c, 0);
      assert c < b ==> c + blk[c].n <= b;
      assert c > b ==> c >= b + blk[b].n;
    }
  }

  lemma CutStored(m: seq<int>, m': seq<int>, blk: Blocks, blk': Blocks, tail: int, b: int, k: int)
    requires Tiled(blk, tail) && Stored(m, blk, tail) && IsFree(blk, b) && 4 <= k <= blk[b].n - 4 && blk[b].prev
    requires b + k !in blk && b + blk[b].n - 2 < |m|
    requires blk' == blk[b := Hdr(k, true, true)][b + k := Hdr(blk[b].n - k, true, false)]
    requires m' == m[b - 1 := Encode(Hdr(k, true, true))][b + k - 1 := Encode(blk'[b + k])]
                    [b + blk[b].n - 2 := Encode(blk'[b + k])]
    ensures Stored(m', blk', tail)
    ensures AllKept(blk, tail, m, blk', m', {})
  {
    forall c | c in blk' ensures Tags(m', blk', c, 0) {
      CutTags(m, m', blk, blk', tail, b, k, c);
    }
    forall c | IsLive(blk, tail, c) ensures Kept(blk, m, blk', m', c) {
      OutsideBlock(blk, b, c);
    }
  }

  /** free: clear the A bit, write the footer, link the block, clear the successor's P bit. */
  lemma ReleaseTags(m: seq<int>, m1: seq<int>, m2: seq<int>, m': seq<int>, blk: Blocks, blk': Blocks, tail: int,
                    fl': Listed, b: int, x: int, c: int)
    requires Tiled(blk, tail) && Stored(m, blk, tail) && IsLive(blk, tail, b) && x == Next(blk, b) && x in blk
    requires blk' == Mark(blk, b, false) && FreeListed(blk', fl') && Tiled(blk', tail)
    requires x - 2 < |m|
    requires m1 == m[b - 1 := Encode(blk'[b])][x - 2 := Encode(blk'[b])] && SameOffLinks(m1, m2, fl')
    requires m' == m2[x - 1 := Encode(blk'[x])]
    requires c in blk'
    ensures Tags(m', blk', c, x)
  {
    TagsOffLinks(blk', tail, fl', c);
    if c != b && c != x {
      assert Tags(m, blk, c, 0);
      assert c < b ==> c + blk[c].n <= b;
      assert c > x ==> c >= x + blk[x].n;
    }
  }

  lemma ReleaseStored(m: seq<int>, m1: seq<int>, m2: seq<int>, m': seq<int>, blk: Blocks, blk': Blocks, tail: int,
                      fl': Listed, b: int, x: int)
    requires Tiled(blk, tail) && Stored(m, blk, tail) && IsLive(blk, tail, b) && x == Next(blk, b) && x in blk
    requires blk' == Mark(blk, b, false) && FreeListed(blk', fl') && Tiled(blk', tail)
    requires x - 2 < |m|
    requires m1 == m[b - 1 := Encode(blk'[b])][x - 2 := Encode(blk'[b])] && SameOffLinks(m1, m2, fl')
    requires m' == m2[x - 1 := Encode(blk'[x])]
    ensures StoredBut(m', blk', tail, x)
    ensures AllKept(blk, tail, m, blk', m', {b})
  {
    forall c | c in blk' ensures Tags(m', blk', c, x) {
      ReleaseTags(m, m1, m2, m', blk, blk', tail, fl', b, x, c);
    }
    KeptOffLinks(m1, m2, blk', tail, fl');
    forall c | IsLive(blk, tail, c) && c != b ensures Kept(blk, m, blk', m', c) {
      OutsideBlock(blk, b, c);
      OutsideHeader(blk, x, c);
      assert Kept(blk', m1, blk', m2, c);
    }
  }

  /** extend_heap: the old epilogue becomes a free block, with a new epilogue behind it. */
  lemma GrowStored(m: seq<int>, m1: seq<int>, m2: seq<int>, m': seq<int>, blk: Blocks, blk': Blocks, tail: int,
                   fl': Listed, k: int)
    requires Tiled(blk, tail) && Stored(m, blk, tail) && k >= 4 && tail + k <= |m|
    requires blk' == Grow(blk, tail, k) && Tiled(blk', tail + k) && FreeListed(blk', fl')
    requires m1 == m[tail - 1 := Encode(blk'[tail])][tail + k - 2 := Encode(blk'[tail])] && SameOffLinks(m1, m2, fl')
    requires m' == m2[tail + k - 1 := Encode(blk'[tail + k])]
    ensures Stored(m', blk', tail + k)
    ensures AllKept(blk, tail, m, blk', m', {})
  {
    forall c | c in blk' ensures Tags(m', blk', c, 0) {
      TagsOffLinks(blk', tail + k, fl', c);
      if c < tail {
        assert Tags(m, blk, c, 0);
        assert c + blk[c].n <= tail;
      }
    }
    KeptOffLinks(m1, m2, blk', tail + k, fl');
    forall c | IsLive(blk, tail, c) ensures Kept(blk, m, blk', m', c) {
      assert c + blk[c].n <= tail;
      assert Kept(blk', m1, blk', m2, c);
    }
  }

  /** realloc: the live block b swallows the free block x behind it. */
  lemma SwallowStored(m: seq<int>, m': seq<int>, blk: Blocks, blk': Blocks, tail: int, b: int, x: int)
    requires Tiled(blk, tail) && Stored(m, blk, tail) && IsLive(blk, tail, b) && x == Next(blk, b) && IsFree(blk, x)
    requires Next(blk, x) in blk && blk[Next(blk, x)].alloc && blk' == Merge(blk, b, x) && Tiled(blk', tail)
    requires 0 < b <= |m| && 0 < Next(blk, x) <= |m|
    requires m' == m[b - 1 := Encode(blk'[b])][Next(blk, x) - 1 := Encode(blk'[Next(blk, x)])]
    ensures Stored(m', blk', tail)
    ensures AllKept(blk, tail, m, blk', m', {b})
    ensures forall i :: b <= i < b + blk[b].n - 1 && 0 <= i < |m| ==> m'[i] == m[i]
  {
    hide Chained, Encode;
    var y := Next(blk, x);
    forall c | c in blk' ensures Tags(m', blk', c, 0) {
      SwallowTags(m, m', blk, blk', tail, b, x, c);
    }
    forall c | IsLive(blk, tail, c) && c != b ensures Kept(blk, m, blk', m', c) {
      OutsideHeader(blk, b, c);
      OutsideHeader(blk, y, c);
    }
  }

  lemma SwallowTags(m: seq<int>, m': seq<int>, blk: Blocks, blk': Blocks, tail: int, b: int, x: int, c: int)
    requires Tiled(blk, tail) && Stored(m, blk, tail) && IsLive(blk, tail, b) && x == Next(blk, b) && IsFree(blk, x)
    requires Next(blk, x) in blk && blk[Next(blk, x)].alloc && blk' == Merge(blk, b, x)
    requires 0 < b <= |m| && 0 < Next(blk, x) <= |m|
    requires m' == m[b - 1 := Encode(blk'[b])][Next(blk, x) - 1 := Encode(blk'[Next(blk, x)])]
    requires c in blk'
    ensures Tags(m', blk', c, 0)
  {
    hide Chained, Encode;
    var y := Next(blk, x);
    assert Tags(m, blk, c, 0);
    assert c < b ==> c + blk[c].n <= b;
    assert c > b ==> c >= y;
  }

  /** realloc: the live block b is cut after k words into two live blocks. */
  lemma ShrinkStored(m: seq<int>, m': seq<int>, blk: Blocks, blk': Blocks, tail: int, b: int, k: int)
    requires Tiled(blk, tail) && Stored(m, blk, tail) && IsLive(blk, tail, b) && 4 <= k <= blk[b].n - 4
    requires b + blk[b].n <= |m| && b + k !in blk
    requires blk' == Split(blk, b, k) && m' == m[b - 1 := Encode(blk'[b])][b + k - 1 := Encode(blk'[b + k])]
    ensures Stored(m', blk', tail)
    ensures AllKept(blk, tail, m, blk', m', {b})
    ensures forall i :: b <= i < b + k - 1 && 0 <= i < |m| ==> m'[i] == m[i]
  {
    forall c | c in blk' ensures Tags(m', blk', c, 0) {
      if c != b && c != b + k {
        assert Tags(m, blk, c, 0);
        OutsideBlock(blk, b, c);
      }
    }
    forall c | IsLive(blk, tail, c) && c != b ensures Kept(blk, m, blk', m', c) {
      OutsideBlock(blk, b, c);
    }
  }

  // ---- whole operations ----

  /** place without a split, from the erased list node to the well-formed result. */
  lemma PlaceWholeStep(m0: seq<int>, m1: seq<int>, m2: seq<int>, blk: Blocks, fl: Listed, stamp: int, tail: int, b: int, k: int)
    requires WellFormed(m0, blk, fl, stamp, tail) && Classed(blk, fl) && Coalesced(blk)
    requires IsFree(blk, b) && k % 2 == 0 && 4 <= k <= blk[b].n < k + 4
    requires SameOffLinks(m0, m1, fl) && Next(blk, b) in blk
    requires 0 < b <= |m0| && 0 < Next(blk, b) <= |m0|
    requires m2 == m1[b - 1 := Encode(blk[b].(alloc := true))]
                     [Next(blk, b) - 1 := Encode(blk[Next(blk, b)].(prev := true))]
    ensures Shape(Taken(blk, b, k), tail) && Coalesced(Taken(blk, b, k)) && Stored(m2, Taken(blk, b, k), tail)
    ensures FreeListed(Taken(blk, b, k), fl - {b}) && Classed(Taken(blk, b, k), fl - {b})
    ensures AllKept(blk, tail, m0, Taken(blk, b, k), m2, {})
  {
    TakenShape(blk, tail, b, k);
    StoredOffLinks(m0, m1, blk, tail, fl);
    KeptOffLinks(m0, m1, blk, tail, fl);
    TakeStored(m1, m2, blk, tail, b);
    KeptTrans(blk, tail, m0, blk, tail, m1, Taken(blk, b, k), m2, {}, {});
  }

  /** place with a split: erase the block, write three tags. */
  lemma PlaceSplitStep(m0: seq<int>, m1: seq<int>, m2: seq<int>, blk: Blocks, blk': Blocks,
                       fl: Listed, stamp: int, tail: int, b: int, k: int)
    requires WellFormed(m0, blk, fl, stamp, tail) && Coalesced(blk)
    requires IsFree(blk, b) && k % 2 == 0 && 4 <= k <= blk[b].n - 4
    requires SameOffLinks(m0, m1, fl) && Next(blk, b) in blk && blk' == Taken(blk, b, k)
    requires b + blk[b].n - 2 < |m0|
    requires m2 == m1[b - 1 := Encode(Hdr(k, true, true))][b + k - 1 := Encode(blk'[b + k])]
                     [b + blk[b].n - 2 := Encode(blk'[b + k])]
    ensures Stored(m2, blk', tail)
    ensures AllKept(blk, tail, m0, blk', m2, {})
  {
    TakenShape(blk, tail, b, k);
    StoredOffLinks(m0, m1, blk, tail, fl);
    KeptOffLinks(m0, m1, blk, tail, fl);
    CutStored(m1, m2, blk, blk', tail, b, k);
    KeptTrans(blk, tail, m0, blk, tail, m1, blk', m2, {}, {});
  }

  /** The blocks from r up to address e fused into one free block. */
  ghost function Fused(blk: Blocks, r: int, e: int): Blocks {
    map c | c in blk && !(r < c < e) :: if c == r then Hdr(e - r, blk[r].prev, false) else blk[c]
  }

  /** r and e delimit what coalesce fuses around the free block b. */
  ghost predicate Fusible(blk: Blocks, b: int, r: int, e: int) {
    && IsFree(blk, b) && Next(blk, b) in blk
    && (if blk[b].prev then r == b else IsFree(blk, r) && Next(blk, r) == b && r < b)
    && (if blk[Next(blk, b)].alloc then e == Next(blk, b)
        else Next(blk, Next(blk, b)) in blk && e == Next(blk, Next(blk, b)))
  }

  lemma FusePair(blk: Blocks, tail: int, r: int, e: int)
    requires Shape(blk, tail) && IsFree(blk, r) && IsFree(blk, Next(blk, r)) && e == Next(blk, Next(blk, r))
    ensures Shape(Fused(blk, r, e), tail)
    ensures e in blk && r < Next(blk, r) < e
  {
    var x := Next(blk, r);
    MergeShape(blk, tail, r);
    assert Next(blk, x) in blk && Next(blk, r) in blk;
    assert Merge(blk, r, x).Keys == Fused(blk, r, e).Keys;
    assert Merge(blk, r, x) == Fused(blk, r, e);
  }

  lemma FuseTriple(blk: Blocks, tail: int, r: int, b: int, e: int)
    requires Shape(Fused(blk, b, e), tail) && IsFree(blk, r) && Next(blk, r) == b && r < b < e && IsFree(blk, b)
    ensures Shape(Fused(blk, r, e), tail)
  {
    var blk1 := Fused(blk, b, e);
    assert r in blk1 && b in blk1 && Next(blk1, r) == b && Next(blk1, b) == e;
    FusePair(blk1, tail, r, e);
    assert Fused(blk1, r, e) == Fused(blk, r, e);
  }

  lemma FuseTiles(blk: Blocks, tail: int, b: int, r: int, e: int)
    requires Shape(blk, tail) && Fusible(blk, b, r, e)
    ensures Shape(Fused(blk, r, e), tail) && e in blk && r + 4 <= e
  {
    var x := Next(blk, b);
    if blk[x].alloc {
      if r == b {
        assert Fused(blk, r, e) == blk;
      } else {
        FusePair(blk, tail, r, e);
      }
    } else {
      FusePair(blk, tail, b, e);
      if r != b {
        FuseTriple(blk, tail, r, b, e);
      }
    }
  }

  lemma FuseShape(blk: Blocks, tail: int, b: int, r: int, e: int)
    requires Shape(blk, tail) && Fusible(blk, b, r, e) && CoalescedBut(blk, b)
    ensures Shape(Fused(blk, r, e), tail) && Coalesced(Fused(blk, r, e))
    ensures r in Fused(blk, r, e) && e in blk && r + 4 <= e && IsFree(blk, r) && blk[r].prev && r != HEAD && r != tail
  {
    FuseTiles(blk, tail, b, r, e);
  }

  /** The block whose end is e. */
  ghost function LastFused(blk: Blocks, b: int): int
    requires b in blk && Next(blk, b) in blk
  {
    if blk[Next(blk, b)].alloc then b else Next(blk, b)
  }

  /** coalesce: one header and one footer rewritten, the swallowed nodes erased, the result listed anew. */
  lemma CoalesceStep(m0: seq<int>, m1: seq<int>, m2: seq<int>, blk: Blocks, blk': Blocks, fl: Listed, tail: int,
                     b: int, r: int, e: int)
    requires Shape(blk, tail) && FreeListed(blk, fl) && Fusible(blk, b, r, e) && CoalescedBut(blk, b)
    requires StoredBut(m0, blk, tail, Next(blk, b)) && blk' == Fused(blk, r, e) && r in blk' && 0 < r && r + 4 <= e <= |m0|
    requires m1 == m0[r - 1 := Encode(blk'[r])][e - 2 := Encode(blk'[r])] && SameOffLinks(m1, m2, fl)
    ensures Stored(m2, blk', tail)
    ensures AllKept(blk, tail, m0, blk', m2, {})
  {
    FuseShape(blk, tail, b, r, e);
    var z := LastFused(blk, b);
    AbsorbStored(m0, m1, m2, blk, blk', tail, fl, r, z, Next(blk, b));
    AbsorbKept(m0, m1, m2, blk, blk', tail, fl, r, z);
  }

  lemma FuseListed(blk: Blocks, blk': Blocks, fl: Listed, fl': Listed, r: int, e: int, rank: int)
    requires FreeListed(blk, fl) && Classed(blk, fl) && IsFree(blk, r) && blk' == Fused(blk, r, e) && r < e
    requires fl' == (fl - (set c | c in fl && r < c < e))[r := Slot(ClassOf(4 * (e - r)), rank)]
    ensures FreeListed(blk', fl') && Classed(blk', fl')
  {
  }

  lemma SameOffLinksTrans(m0: seq<int>, m1: seq<int>, m2: seq<int>, fl: Listed, fl1: Listed)
    requires SameOffLinks(m0, m1, fl) && SameOffLinks(m1, m2, fl1) && fl1.Keys <= fl.Keys
    ensures SameOffLinks(m0, m2, fl)
  {
  }

  /** What extend_heap does to the block map before it coalesces. */
  lemma GrowSettles(blk: Blocks, tail: int, k: int)
    requires Shape(blk, tail) && Coalesced(blk) && k % 2 == 0 && k >= 4
    ensures var blk' := Grow(blk, tail, k);
      && Shape(blk', tail + k) && IsFree(blk', tail) && Next(blk', tail) == tail + k && tail + k in blk'
      && CoalescedBut(blk', tail) && tail + k !in blk
      && (forall b :: IsFree(blk', b) <==> b == tail || IsFree(blk, b))
      && (forall b :: IsFree(blk, b) ==> blk'[b] == blk[b])
  {
    GrowShape(blk, tail, k);
  }

  /** What free does to the block map before it coalesces. */
  lemma MarkSettles(blk: Blocks, tail: int, b: int)
    requires Shape(blk, tail) && Coalesced(blk) && IsLive(blk, tail, b)
    ensures Next(blk, b) in blk && b < Next(blk, b)
    ensures var blk' := Mark(blk, b, false);
      && Shape(blk', tail) && IsFree(blk', b) && Next(blk', b) == Next(blk, b)
      && CoalescedBut(blk', b)
      && (forall c :: IsFree(blk', c) <==> c == b || IsFree(blk, c))
      && (forall c :: IsFree(blk, c) ==> blk'[c].n == blk[c].n)
  {
    MarkShape(blk, tail, b, false);
  }

  lemma GrowReady(m: seq<int>, blk: Blocks, fl: Listed, stamp: int, tail: int, k: int)
    requires WellFormed(m, blk, fl, stamp, tail) && k >= 4 && tail + k <= |m|
    ensures Insertable(m, fl, tail) && (forall f :: f in fl ==> f + 4 <= tail)
    ensures m[tail - 1] == Encode(Hdr(0, blk[tail].prev, true)) && BASE < tail
  {
    assert Tags(m, blk, tail, 0);
    assert forall f :: f in fl ==> IsFree(blk, f) && f != HEAD && f != tail && blk[f].n >= 4;
  }

  /** extend_heap before it coalesces: two tags, a list entry, a new epilogue. */
  lemma GrowStep(m0: seq<int>, m2: seq<int>, m': seq<int>, blk: Blocks, blk': Blocks, fl: Listed, fl': Listed,
                 stamp: int, tail: int, k: int)
    requires WellFormed(m0, blk, fl, stamp, tail) && Classed(blk, fl) && Coalesced(blk)
    requires k % 2 == 0 && k >= 4 && tail + k <= |m0| && blk' == Grow(blk, tail, k)
    requires fl' == fl[tail := Slot(ClassOf(4 * k), stamp)]
    requires SameOffLinks(m0[tail - 1 := Encode(blk'[tail])][tail + k - 2 := Encode(blk'[tail])], m2, fl')
    requires m' == m2[tail + k - 1 := Encode(blk'[tail + k])]
    ensures Shape(blk', tail + k) && IsFree(blk', tail) && Next(blk', tail) == tail + k && tail + k in blk'
    ensures StoredBut(m', blk', tail + k, tail + k) && FreeListed(blk', fl') && Classed(blk', fl')
    ensures CoalescedBut(blk', tail) && AllKept(blk, tail, m0, blk', m', {})
  {
    hide Tags, Rings, ClassOf, Encode;
    GrowSettles(blk, tail, k);
    GrowStored(m0, m0[tail - 1 := Encode(blk'[tail])][tail + k - 2 := Encode(blk'[tail])], m2, m', blk, blk', tail, fl', k);
    StoredThenBut(m', blk', tail + k);
  }

  /** The footer of the epilogue, which is allocated, is nothing anyone looks at. */
  lemma StoredThenBut(m: seq<int>, blk: Blocks, tail: int)
    requires Stored(m, blk, tail)
    ensures StoredBut(m, blk, tail, tail)
  {
    forall b | b in blk ensures Tags(m, blk, b, tail) {
      assert Tags(m, blk, b, 0);
    }
  }

  lemma EpilogueOffLinks(blk: Blocks, tail: int, fl': Listed, k: int)
    requires Tiled(blk, tail) && k >= 4 && forall f :: f in fl' ==> f == tail || IsFree(blk, f)
    ensures tail + k - 1 !in fl' && tail + k - 2 !in fl'
  {
  }

  // ---- who is live afterwards ----

  ghost function LiveSet(blk: Blocks, tail: int): set<int> {
    set b | b in blk && IsLive(blk, tail, b)
  }

  lemma LiveTaken(blk: Blocks, tail: int, b: int, k: int)
    requires Sized(blk, tail) && IsFree(blk, b) && Next(blk, b) in blk && blk[b].n >= 4
    requires blk[b].n >= k + 4 ==> b + k !in blk && k >= 4
    ensures LiveSet(Taken(blk, b, k), tail) == LiveSet(blk, tail) + {b}
    ensures Taken(blk, b, k)[b].n >= if blk[b].n < k then blk[b].n else k
  {
  }

  lemma LiveFused(blk: Blocks, tail: int, b: int, r: int, e: int)
    requires Tiled(blk, tail) && Fusible(blk, b, r, e)
    ensures LiveSet(Fused(blk, r, e), tail) == LiveSet(blk, tail)
  {
    forall c | c in blk && r < c < e ensures !blk[c].alloc {
      var x := Next(blk, b);
      assert c == b || c == x by {
        assert r + blk[r].n <= c;
        assert c > b ==> b + blk[b].n <= c;
      }
    }
  }

  lemma LiveGrown(blk: Blocks, tail: int, k: int)
    requires Sized(blk, tail) && k >= 4
    ensures LiveSet(Grow(blk, tail, k), tail + k) == LiveSet(blk, tail)
  {
  }

  lemma LiveMarked(blk: Blocks, tail: int, b: int)
    requires IsLive(blk, tail, b) && Next(blk, b) in blk && blk[b].n != 0
    ensures LiveSet(Mark(blk, b, false), tail) == LiveSet(blk, tail) - {b}
  {
  }

  /** Growing and then fusing at the old epilogue gives one free block up to the new epilogue. */
  lemma GrowFuse(blk: Blocks, tail: int, k: int, r: int, e: int)
    requires Shape(blk, tail) && Coalesced(blk) && k % 2 == 0 && k >= 4 && Fusible(Grow(blk, tail, k), tail, r, e)
    ensures e == tail + k && LiveSet(Fused(Grow(blk, tail, k), r, e), e) == LiveSet(blk, tail)
    ensures r in Fused(Grow(blk, tail, k), r, e) && Fused(Grow(blk, tail, k), r, e)[r].n == e - r && r != 0
    ensures if blk[tail].prev then r == tail else IsFree(blk, r) && Next(blk, r) == tail && r < tail
    ensures forall b :: IsLive(blk, tail, b) ==> b != e
  {
    GrowSettles(blk, tail, k);
    LiveGrown(blk, tail, k);
    LiveFused(Grow(blk, tail, k), tail + k, tail, r, e);
  }

  // ---- realloc in place ----

  lemma SwallowSettles(blk: Blocks, tail: int, b: int, x: int)
    requires Shape(blk, tail) && Coalesced(blk) && IsLive(blk, tail, b) && x == Next(blk, b) && IsFree(blk, x)
    ensures x != tail && Next(blk, x) in blk && blk[Next(blk, x)].alloc && b < x < Next(blk, x)
    ensures var blk' := Merge(blk, b, x);
      && Shape(blk', tail) && Coalesced(blk') && LiveSet(blk', tail) == LiveSet(blk, tail)
      && blk'.Keys == blk.Keys - {x}
      && (forall c :: IsFree(blk', c) <==> IsFree(blk, c) && c != x) && (forall c :: IsFree(blk', c) ==> blk'[c] == blk[c])
  {
    assert x != tail && Next(blk, x) in blk;
    MergeShape(blk, tail, b);
  }

  lemma SwallowListed(blk: Blocks, blk': Blocks, fl: Listed, x: int)
    requires FreeListed(blk, fl) && Classed(blk, fl)
    requires forall c :: IsFree(blk', c) <==> IsFree(blk, c) && c != x
    requires forall c :: IsFree(blk', c) ==> blk'[c] == blk[c]
    ensures FreeListed(blk', fl - {x}) && Classed(blk', fl - {x})
  {
  }

  lemma ShrinkSettles(blk: Blocks, tail: int, b: int, k: int)
    requires Shape(blk, tail) && Coalesced(blk) && IsLive(blk, tail, b) && k % 2 == 0 && 4 <= k <= blk[b].n - 4
    ensures b + k !in blk
    ensures var blk' := Split(blk, b, k);
      && Shape(blk', tail) && Coalesced(blk') && LiveSet(blk', tail) == LiveSet(blk, tail) + {b + k}
      && (forall c :: IsFree(blk', c) <==> IsFree(blk, c)) && (forall c :: IsFree(blk', c) ==> blk'[c] == blk[c])
  {
    SplitShape(blk, tail, b, k);
  }

  // ---- the user writes a payload ----

  /** m' differs from m only in the payload of block b. */
  ghost predicate OnlyPayload(m: seq<int>, m': seq<int>, blk: Blocks, b: int)
    requires b in blk
  {
    |m| == |m'| && forall i :: 0 <= i < |m| && !(b <= i < b + blk[b].n - 1) ==> m'[i] == m[i]
  }

  /** Writing a live payload disturbs no tag, no link and no other payload. */
  lemma PayloadWrite(m: seq<int>, m': seq<int>, blk: Blocks, fl: Listed, stamp: int, tail: int, b: int)
    requires WellFormed(m, blk, fl, stamp, tail) && IsLive(blk, tail, b) && OnlyPayload(m, m', blk, b)
    ensures WellFormed(m', blk, fl, stamp, tail)
    ensures AllKept(blk, tail, m, blk, m', {b})
  {
    forall c | c in blk ensures Tags(m', blk, c, 0) {
      assert Tags(m, blk, c, 0);
      OutsideHeader(blk, c, b);
      if c != b { OutsideBlock(blk, c, b); }
    }
    forall c | IsLive(blk, tail, c) && c != b ensures Kept(blk, m, blk, m', c) {
      OutsideBlock(blk, c, b);
    }
    PayloadOffLinks(m, m', blk, fl, tail, b);
    RingsFrame(m, m', fl, stamp);
  }

  lemma PayloadOffLinks(m: seq<int>, m': seq<int>, blk: Blocks, fl: Listed, tail: int, b: int)
    requires Tiled(blk, tail) && FreeListed(blk, fl) && IsLive(blk, tail, b) && OnlyPayload(m, m', blk, b)
    ensures SameLinks(m, m', fl)
  {
    forall u | u in fl && 0 <= u < |m| - 1 ensures m'[u] == m[u] && m'[u + 1] == m[u + 1] {
      assert IsFree(blk, u) && u != tail && u != HEAD;
      OutsideBlock(blk, u, b);
    }
  }
}
