/** The segregated best-fit allocator: mm_init, mm_malloc, mm_free and mm_realloc. */
module Allocator {
  import opened HeapBlocks
  import opened FreeLists
  import opened SizeClasses
  import opened HeapState
  import opened PayloadBytes

  const NULL := 0
  const INT_LIMIT := 0x8000_0000

  class Heap {
    const max: nat             // bytes mem_sbrk may hand out
    const mem: array<int>      // every word: the list heads, then the heap
    var brk: int               // byte address behind the last byte handed out
    var blockHead: int
    var blockTail: int
    ghost var blk: Blocks
    ghost var fl: Listed
    ghost var stamp: int

    ghost predicate Placed()
      reads this
    {
      && max < INT_LIMIT && mem.Length == BASE + max / 4
      && blockHead == HEAD && brk == 4 * blockTail && blockTail <= mem.Length
    }

    ghost predicate Consistent()
      reads this, mem
    {
      Placed() && WellFormed(mem[..], blk, fl, stamp, blockTail) && Classed(blk, fl)
    }

    /** Everything mm_check asserts, and that each list holds all free blocks of its class. */
    ghost predicate Valid()
      reads this, mem
    {
      Consistent() && Coalesced(blk)
    }

    /** The payloads the user owns. */
    ghost function Live(): set<int>
      reads this
    {
      LiveSet(blk, blockTail)
    }

    // ---- memory words ----

    method Put(i: int, v: int)
      requires 0 <= i < mem.Length
      modifies mem
      ensures mem[..] == old(mem[..])[i := v]
    {
      mem[i] := v;
    }

    method Header(b: int) returns (size: int, prevAlloc: int, alloc: int)
      requires b in blk && 1 <= b <= mem.Length && mem[b - 1] == Encode(blk[b]) && blk[b].n % 2 == 0
      ensures size == 4 * blk[b].n && prevAlloc == Bit(blk[b].prev) && alloc == Bit(blk[b].alloc)
    {
      TagWord(blk[b], 0, true);
      size, prevAlloc, alloc := GetSize(mem[b - 1]), GetPrevAlloc(mem[b - 1]), GetAlloc(mem[b - 1]);
    }

    // ---- free lists ----

    method ListErase(x: int)
      requires Rings(mem[..], fl, stamp) && x in fl
      modifies mem, this`fl
      ensures fl == old(fl) - {x} && Rings(mem[..], fl, stamp)
      ensures SameOffLinks(old(mem[..]), mem[..], old(fl))
    {
      EraseRings(mem[..], fl, stamp, x);
      Put(mem[x] + 1, mem[x + 1]);
      Put(mem[x + 1], mem[x]);
      assert mem[..] == Erased(old(mem[..]), x);
      fl := fl - {x};
    }

    method ListPushFront(h: int, x: int, ghost k: int)
      requires Rings(mem[..], fl, stamp) && Insertable(mem[..], fl, x) && 0 <= k < NUM_LISTS && h == ListHead(k)
      modifies mem, this`fl, this`stamp
      ensures fl == old(fl)[x := Slot(k, old(stamp))] && stamp == old(stamp) + 1 && Rings(mem[..], fl, stamp)
      ensures SameOffLinks(old(mem[..]), mem[..], fl)
    {
      PushRings(mem[..], fl, stamp, x, k);
      Put(x, h);
      Put(x + 1, mem[h + 1]);
      Put(mem[h + 1], x);
      Put(h + 1, x);
      assert mem[..] == Pushed(old(mem[..]), h, x);
      fl, stamp := fl[x := Slot(k, stamp)], stamp + 1;
    }

    method ListInsert(x: int, ghost h: Hdr)
      requires Rings(mem[..], fl, stamp) && Insertable(mem[..], fl, x)
      requires mem[x - 1] == Encode(h) && h.n % 2 == 0 && 16 <= 4 * h.n < SIZE_T
      modifies mem, this`fl, this`stamp
      ensures fl == old(fl)[x := Slot(ClassOf(4 * h.n), old(stamp))] && Rings(mem[..], fl, stamp)
      ensures SameOffLinks(old(mem[..]), mem[..], fl)
    {
      TagWord(h, 0, true);
      var idx := LowerBound(GetSize(mem[x - 1]));
      ListPushFront(ListHead(idx), x, idx);
    }

    /** Takes x out of its list and pushes it on the list of its present size. */
    method ListUpdate(x: int, ghost h: Hdr)
      requires Rings(mem[..], fl, stamp) && x in fl && x - 1 !in fl && x - 2 !in fl
      requires mem[x - 1] == Encode(h) && h.n % 2 == 0 && 16 <= 4 * h.n < SIZE_T
      modifies mem, this`fl, this`stamp
      ensures fl == old(fl)[x := Slot(ClassOf(4 * h.n), old(stamp))] && Rings(mem[..], fl, stamp)
      ensures SameOffLinks(old(mem[..]), mem[..], old(fl))
    {
      ListErase(x);
      ghost var m1 := mem[..];
      ListInsert(x, h);
      SameOffLinksTrans(old(mem[..]), m1, mem[..], old(fl), fl);
    }

    // ---- best fit ----

    /** The smallest block of list c that is large enough, or NULL. */
    method BestInList(c: nat, allocSize: int) returns (best: int)
      requires Consistent() && c < NUM_LISTS && 0 < allocSize
      ensures best == NULL <==> forall b :: b in fl && fl[b].cls == c ==> 4 * blk[b].n < allocSize
      ensures best != NULL ==> best in fl && fl[best].cls == c && 4 * blk[best].n >= allocSize
      ensures best != NULL ==>
        forall b :: b in fl && fl[b].cls == c && 4 * blk[b].n >= allocSize ==> blk[best].n <= blk[b].n
    {
      hide StoredBut, Tiled, Aligned, Classed, Insertable;
      var h := ListHead(c);
      best := NULL;
      var bestSize := SIZE_T - 1;
      assert Linked(mem[..], fl, stamp, c, h);
      var fp := mem[h + 1];
      while fp != h
        invariant Node(fl, c, fp)
        invariant best == NULL ==> bestSize == SIZE_T - 1
        invariant best != NULL ==>
          best in fl && fl[best].cls == c && 4 * blk[best].n >= allocSize && bestSize == 4 * blk[best].n
        invariant forall b :: b in fl && fl[b].cls == c && fl[b].rank > To(fl, fp) && 4 * blk[b].n >= allocSize ==>
          best != NULL && bestSize <= 4 * blk[b].n
        decreases To(fl, fp) + 1
      {
        assert fp in blk;
        HeaderAt(fp);
        var blockSize, _, _ := Header(fp);
        SizeInRange(fp);
        if blockSize >= allocSize && blockSize < bestSize {
          best, bestSize := fp, blockSize;
        }
        assert Linked(mem[..], fl, stamp, c, fp);
        fp := mem[fp + 1];
      }
    }

    lemma SizeInRange(b: int)
      requires Placed() && Tiled(blk, blockTail) && b in blk
      ensures 0 <= 4 * blk[b].n < INT_LIMIT + 4 * BASE && b + blk[b].n <= blockTail
    {
      if b != blockTail {
        assert Next(blk, b) in blk;
      }
    }

    /** segregated_find_best_fit: NULL when no free block fits, otherwise a smallest one that does. */
    method FindFit(allocSize: int) returns (bp: int)
      requires Consistent() && MIN_BLOCK_SIZE <= allocSize < SIZE_T
      ensures bp == NULL <==> forall b :: IsFree(blk, b) ==> 4 * blk[b].n < allocSize
      ensures bp != NULL ==> IsFree(blk, bp) && 4 * blk[bp].n >= allocSize
      ensures bp != NULL ==> forall b :: IsFree(blk, b) && 4 * blk[b].n >= allocSize ==> blk[bp].n <= blk[b].n
    {
      var i: nat := LowerBound(allocSize);
      SmallClasses(allocSize, i);
      while i < NUM_LISTS
        invariant i <= NUM_LISTS
        invariant forall b :: b in fl && fl[b].cls < i ==> 4 * blk[b].n < allocSize
      {
        bp := BestInList(i, allocSize);
        if bp != NULL {
          LargerClasses(bp);
          return bp;
        }
        i := i + 1;
      }
      bp := NULL;
    }

    /** Blocks in lists below the class of a size are smaller than it. */
    lemma SmallClasses(size: int, i: nat)
      requires Consistent() && 1 <= size && i == ClassOf(size)
      ensures forall b :: b in fl && fl[b].cls < i ==> 4 * blk[b].n < size
    {
      forall b | b in fl && fl[b].cls < i ensures 4 * blk[b].n < size {
        assert IsFree(blk, b);
        if size <= 4 * blk[b].n {
          ClassMonotone(size, 4 * blk[b].n);
        }
      }
    }

    lemma LargerClasses(x: int)
      requires Consistent() && x in fl
      ensures forall b :: b in fl && fl[b].cls > fl[x].cls ==> blk[x].n < blk[b].n
    {
      assert IsFree(blk, x);
      forall b | b in fl && fl[b].cls > fl[x].cls ensures blk[x].n < blk[b].n {
        assert IsFree(blk, b);
        if blk[b].n <= blk[x].n {
          ClassMonotone(4 * blk[b].n, 4 * blk[x].n);
        }
      }
    }

    // ---- placing ----

    /** Writes a tag word; the free lists do not notice. */
    method PutTag(i: int, v: int)
      requires Rings(mem[..], fl, stamp) && BASE <= i < mem.Length && i !in fl && i - 1 !in fl
      modifies mem
      ensures mem[..] == old(mem[..])[i := v] && Rings(mem[..], fl, stamp)
    {
      RingsFrame(mem[..], mem[..][i := v], fl, stamp);
      Put(i, v);
    }

    /** set_meta on the header of b. */
    method PutHeader(b: int, size: int, prevAlloc: int, alloc: int, ghost h: Hdr)
      requires size == 4 * h.n && prevAlloc == Bit(h.prev) && alloc == Bit(h.alloc)
      requires Rings(mem[..], fl, stamp) && BASE < b <= mem.Length && b - 1 !in fl && b - 2 !in fl
      modifies mem
      ensures mem[..] == old(mem[..])[b - 1 := Encode(h)] && Rings(mem[..], fl, stamp)
    {
      PutTag(b - 1, Meta(size, prevAlloc, alloc));
    }

    /** set_prev_alloc on the header of b, whose record is h. */
    method PutPrevAlloc(b: int, bit: int, ghost h: Hdr)
      requires 0 <= bit <= 1 && h.n % 2 == 0
      requires Rings(mem[..], fl, stamp) && BASE < b <= mem.Length && b - 1 !in fl && b - 2 !in fl
      requires mem[b - 1] == Encode(h)
      modifies mem
      ensures mem[..] == old(mem[..])[b - 1 := Encode(h.(prev := bit == 1))] && Rings(mem[..], fl, stamp)
    {
      hide Rings, GetSize, SetAlloc, GetAlloc, GetPrevAlloc, SetSize, SetPrevAlloc, Encode;
      TagWord(h, 0, bit == 1);
      PutTag(b - 1, SetPrevAlloc(mem[b - 1], bit));
    }

    lemma HeaderAt(b: int)
      requires Placed() && Shape(blk, blockTail) && Stored(mem[..], blk, blockTail) && b in blk
      ensures BASE < b <= blockTail <= mem.Length && mem[b - 1] == Encode(blk[b]) && blk[b].n % 2 == 0
    {
      assert Tags(mem[..], blk, b, 0);
    }

    /** place when the block is not worth splitting: take all of it. */
    method PlaceWhole(bp: int, ghost k: int)
      requires Valid() && IsFree(blk, bp) && k % 2 == 0 && 4 <= k <= blk[bp].n < k + 4
      modifies mem, this`blk, this`fl
      ensures Valid() && Next(old(blk), bp) in old(blk) && blk == Taken(old(blk), bp, k)
      ensures AllKept(old(blk), blockTail, old(mem[..]), blk, mem[..], {})
    {
      hide Rings, AllKept, ClassOf, SameOffLinks, Tiled, Aligned, StoredBut, Coalesced, Classed, FreeListed, Taken;
      ghost var m0, fl0 := mem[..], fl;
      ghost var x := Next(blk, bp);
      TakenShape(blk, blockTail, bp, k);
      InFreeList(bp);
      ListErase(bp);
      ghost var m1 := mem[..];
      StoredOffLinks(m0, m1, blk, blockTail, fl0);
      HeaderAt(bp);
      HeaderAt(x);
      TagsOffLinks(blk, blockTail, fl0, bp);
      TagsOffLinks(blk, blockTail, fl0, x);
      var blockSize, _, _ := Header(bp);
      PutHeader(bp, blockSize, 1, 1, Hdr(blk[bp].n, true, true));
      var next := bp + blockSize / 4;
      PutPrevAlloc(next, 1, blk[x]);
      PlaceWholeStep(m0, m1, mem[..], blk, fl0, stamp, blockTail, bp, k);
      blk := Taken(blk, bp, k);
    }

    /** The three tags of a split: the front's header, the rest's header and the rest's footer. */
    method PutCut(bp: int, blockSize: int, allocSize: int, ghost n: int, ghost k: int)
      requires Rings(mem[..], fl, stamp) && blockSize == 4 * n && allocSize == 4 * k && 4 <= k <= n - 4
      requires BASE < bp && bp + n - 2 < mem.Length
      requires bp - 1 !in fl && bp - 2 !in fl && bp + k - 1 !in fl && bp + k - 2 !in fl
      requires bp + n - 2 !in fl && bp + n - 3 !in fl
      modifies mem
      ensures Rings(mem[..], fl, stamp)
      ensures mem[..] == old(mem[..])[bp - 1 := Encode(Hdr(k, true, true))]
                         [bp + k - 1 := Encode(Hdr(n - k, true, false))][bp + n - 2 := Encode(Hdr(n - k, true, false))]
    {
      hide Rings;
      PutHeader(bp, allocSize, 1, 1, Hdr(k, true, true));
      var next := bp + allocSize / 4;
      PutHeader(next, blockSize - allocSize, 1, 0, Hdr(n - k, true, false));
      PutTag(next + (blockSize - allocSize) / 4 - 2, mem[next - 1]);
    }

    /** The first half of a split: unlist the block and write the tags of its two parts. */
    method CutFront(bp: int, allocSize: int, ghost k: int)
      requires Valid() && IsFree(blk, bp) && k % 2 == 0 && 4 <= k <= blk[bp].n - 4 && allocSize == 4 * k
      modifies mem, this`fl
      ensures fl == old(fl) - {bp} && Rings(mem[..], fl, stamp)
      ensures Next(blk, bp) in blk && Stored(mem[..], Taken(blk, bp, k), blockTail)
      ensures AllKept(blk, blockTail, old(mem[..]), Taken(blk, bp, k), mem[..], {})
    {
      hide Rings, AllKept, ClassOf, SameOffLinks, Classed;
      ghost var m0, n := mem[..], blk[bp].n;
      SizeInRange(bp);
      assert Next(blk, bp) in blk by { TakenShape(blk, blockTail, bp, k); }
      ListErase(bp);
      ghost var m1 := mem[..];
      assert Stored(m1, blk, blockTail) by { StoredOffLinks(m0, m1, blk, blockTail, old(fl)); }
      HeaderAt(bp);
      var blockSize, _, _ := Header(bp);
      InsideOffLinks(blk, blockTail, fl, bp, bp - 1);
      InsideOffLinks(blk, blockTail, fl, bp, bp + k - 1);
      InsideOffLinks(blk, blockTail, fl, bp, bp + n - 2);
      PutCut(bp, blockSize, allocSize, n, k);
      PlaceSplitStep(m0, m1, mem[..], blk, Taken(blk, bp, k), old(fl), stamp, blockTail, bp, k);
    }

    /** place when the block is worth splitting: take the front, list the rest. */
    method PlaceSplit(bp: int, allocSize: int, ghost k: int)
      requires Valid() && IsFree(blk, bp) && k % 2 == 0 && 4 <= k <= blk[bp].n - 4 && allocSize == 4 * k
      modifies mem, this`blk, this`fl, this`stamp
      ensures Valid() && Next(old(blk), bp) in old(blk) && blk == Taken(old(blk), bp, k)
      ensures AllKept(old(blk), blockTail, old(mem[..]), blk, mem[..], {})
    {
      TakenShape(blk, blockTail, bp, k);
      CutFront(bp, allocSize, k);
      ghost var m1 := mem[..];
      blk := Taken(blk, bp, k);
      var next := bp + allocSize / 4;
      CanInsert(m1, blk, blockTail, fl, next);
      HeaderAt(next);
      SizeInRange(next);
      ListInsert(next, blk[next]);
      StoredOffLinks(m1, mem[..], blk, blockTail, fl);
      KeptOffLinks(m1, mem[..], blk, blockTail, fl);
      KeptTrans(old(blk), blockTail, old(mem[..]), blk, blockTail, m1, blk, mem[..], {}, {});
    }

    /** place: take allocSize bytes of the free block bp, splitting when the rest can stand alone. */
    method Place(bp: int, allocSize: int, ghost k: int)
      requires Valid() && IsFree(blk, bp) && k % 2 == 0 && 4 <= k <= blk[bp].n && allocSize == 4 * k
      modifies mem, this`blk, this`fl, this`stamp
      ensures Valid() && Next(old(blk), bp) in old(blk) && blk == Taken(old(blk), bp, k)
      ensures AllKept(old(blk), blockTail, old(mem[..]), blk, mem[..], {})
      ensures bp !in old(Live()) && Live() == old(Live()) + {bp} && bp in blk && k <= blk[bp].n < k + 4
    {
      HeaderAt(bp);
      TakenShape(blk, blockTail, bp, k);
      LiveTaken(blk, blockTail, bp, k);
      var blockSize, _, _ := Header(bp);
      if blockSize < allocSize + MIN_BLOCK_SIZE {
        PlaceWhole(bp, k);
      } else {
        PlaceSplit(bp, allocSize, k);
      }
    }

    // ---- coalescing ----

    /** set_meta and sync_footer for the free block r. */
    method Retag(r: int, size: int, prevAlloc: int, ghost h: Hdr)
      requires size == 4 * h.n && prevAlloc == Bit(h.prev) && !h.alloc && 4 <= h.n && r + h.n <= mem.Length && BASE < r
      requires Rings(mem[..], fl, stamp) && r - 1 !in fl && r - 2 !in fl && r + h.n - 2 !in fl && r + h.n - 3 !in fl
      modifies mem
      ensures Rings(mem[..], fl, stamp)
      ensures mem[..] == old(mem[..])[r - 1 := Encode(h)][r + h.n - 2 := Encode(h)]
    {
      hide Rings;
      PutHeader(r, size, prevAlloc, 0, h);
      PutTag(r + size / 4 - 2, mem[r - 1]);
    }

    /** A free block's state before coalesce has dealt with its neighbours. */
    ghost predicate Unsettled(bp: int)
      reads this, mem
    {
      && Placed() && Shape(blk, blockTail) && IsFree(blk, bp) && Next(blk, bp) in blk
      && StoredBut(mem[..], blk, blockTail, Next(blk, bp)) && Rings(mem[..], fl, stamp)
      && FreeListed(blk, fl) && Classed(blk, fl) && CoalescedBut(blk, bp)
    }

    /** The block in front of bp, found through its footer, when the P bit says that it is free. */
    method PrevFree(bp: int) returns (size: int)
      requires Unsettled(bp) && !blk[bp].prev
      ensures var p := bp - size / 4; IsFree(blk, p) && p < bp && Next(blk, p) == bp && size == 4 * blk[p].n
    {
      ghost var p := Predecessor(blk, blockTail, bp);
      assert Tags(mem[..], blk, p, Next(blk, bp));
      TagWord(blk[p], 0, true);
      size := GetSize(mem[bp - 2]);
    }

    method TwoHeaders(bp: int) returns (size: int, prevAlloc: int, nextSize: int, nextAlloc: int)
      requires Unsettled(bp)
      ensures size == 4 * blk[bp].n && prevAlloc == Bit(blk[bp].prev)
      ensures nextSize == 4 * blk[Next(blk, bp)].n && nextAlloc == Bit(blk[Next(blk, bp)].alloc)
    {
      ghost var x := Next(blk, bp);
      assert Tags(mem[..], blk, bp, x) && Tags(mem[..], blk, x, x);
      var s, p, _ := Header(bp);
      var t, _, a := Header(bp + s / 4);
      size, prevAlloc, nextSize, nextAlloc := s, p, t, a;
    }

    lemma FuseTagsOffLinks(bp: int, r: int, e: int)
      requires Unsettled(bp) && Fusible(blk, bp, r, e)
      ensures r + 4 <= e <= blockTail && BASE < r && r in fl && bp in fl
      ensures r - 1 !in fl && r - 2 !in fl && e - 2 !in fl && e - 3 !in fl
    {
      FuseShape(blk, blockTail, bp, r, e);
      TagsOffLinks(blk, blockTail, fl, r);
      TagsOffLinks(blk, blockTail, fl, LastFused(blk, bp));
    }

    method EraseTwo(x: int, y: int)
      requires Rings(mem[..], fl, stamp) && x in fl && y in fl && x != y
      modifies mem, this`fl
      ensures fl == old(fl) - {x} - {y} && Rings(mem[..], fl, stamp)
      ensures SameOffLinks(old(mem[..]), mem[..], old(fl))
    {
      ListErase(x);
      ghost var m1, fl1 := mem[..], fl;
      ListErase(y);
      SameOffLinksTrans(old(mem[..]), m1, mem[..], old(fl), fl1);
    }

    /** Between r and e, the lists hold exactly the blocks that are swallowed. */
    lemma SwallowedOnly(bp: int, r: int, e: int, fl0: Listed)
      requires Tiled(blk, blockTail) && Fusible(blk, bp, r, e) && FreeListed(blk, fl0)
      ensures (set c | c in fl0 && r < c < e)
              == (if r < bp then {bp} else {}) + (if Next(blk, bp) < e then {Next(blk, bp)} else {})
    {
      var x := Next(blk, bp);
      forall c | c in fl0 && r < c < e ensures c == bp || c == x {
        assert c in blk;
        assert r + blk[r].n <= c;
      }
      assert x < e ==> IsFree(blk, x);
    }

    /** One neighbour is free: r is the front block of the two and dead the back one. */
    method FuseOne(r: int, dead: int, size: int, ghost bp: int, ghost e: int)
      requires Unsettled(bp) && Fusible(blk, bp, r, e) && size == 4 * (e - r)
      requires if r < bp then dead == bp && e == Next(blk, bp) else dead == Next(blk, bp) && dead < e
      modifies mem, this`fl
      ensures Rings(mem[..], fl, stamp) && fl == old(fl) - (set c | c in old(fl) && r < c < e)
      ensures SameOffLinks(old(mem[..])[r - 1 := Encode(Hdr(e - r, true, false))]
                                       [e - 2 := Encode(Hdr(e - r, true, false))], mem[..], old(fl))
    {
      hide Rings, SameOffLinks, StoredBut, Classed, CoalescedBut, Aligned;
      FuseTagsOffLinks(bp, r, e);
      SwallowedOnly(bp, r, e, fl);
      assert dead in fl;
      Retag(r, size, 1, Hdr(e - r, true, false));
      ListErase(dead);
    }

    /** Both neighbours are free. */
    method FuseBoth(r: int, bp: int, next: int, size: int, ghost e: int)
      requires Unsettled(bp) && Fusible(blk, bp, r, e) && size == 4 * (e - r)
      requires r < bp < next < e && next == Next(blk, bp)
      modifies mem, this`fl
      ensures Rings(mem[..], fl, stamp) && fl == old(fl) - (set c | c in old(fl) && r < c < e)
      ensures SameOffLinks(old(mem[..])[r - 1 := Encode(Hdr(e - r, true, false))]
                                       [e - 2 := Encode(Hdr(e - r, true, false))], mem[..], old(fl))
    {
      hide Rings, SameOffLinks, StoredBut, Classed, CoalescedBut, Aligned;
      FuseTagsOffLinks(bp, r, e);
      SwallowedOnly(bp, r, e, fl);
      assert next in fl;
      Retag(r, size, 1, Hdr(e - r, true, false));
      EraseTwo(bp, next);
    }

    lemma NothingToFuse(bp: int)
      requires Unsettled(bp) && blk[bp].prev && blk[Next(blk, bp)].alloc
      ensures var e := Next(blk, bp); var m := mem[..]; var w := Encode(Hdr(e - bp, true, false));
              && Fusible(blk, bp, bp, e) && 0 < bp && bp + 4 <= e <= |m| && m[bp - 1 := w][e - 2 := w] == m
              && fl == fl - (set c | c in fl && bp < c < e) && SameOffLinks(m, m, fl)
    {
      var e := Next(blk, bp);
      FuseTagsOffLinks(bp, bp, e);
      SwallowedOnly(bp, bp, e, fl);
      assert Tags(mem[..], blk, bp, e);
    }

    /** The four cases of coalesce: rewrite the tags, erase the blocks that are swallowed. */
    method FuseAround(bp: int) returns (r: int, ghost e: int)
      requires Unsettled(bp)
      modifies mem, this`fl
      ensures Fusible(blk, bp, r, e) && r + 4 <= e <= blockTail && BASE < r && blk[r].prev
      ensures Rings(mem[..], fl, stamp) && fl == old(fl) - (set c | c in old(fl) && r < c < e)
      ensures SameOffLinks(old(mem[..])[r - 1 := Encode(Hdr(e - r, true, false))]
                                       [e - 2 := Encode(Hdr(e - r, true, false))], mem[..], old(fl))
    {
      hide Rings, SameOffLinks, StoredBut, Classed, FreeListed, CoalescedBut, Aligned;
      var size, prevAlloc, nextSize, nextAlloc := TwoHeaders(bp);
      var next := bp + size / 4;
      e := next;
      if nextAlloc == 0 {
        e := Next(blk, next);
        assert e in blk;
      }
      if prevAlloc == 0 {
        var prevSize := PrevFree(bp);
        r := bp - prevSize / 4;
        FuseEnds(bp, r, e);
        if nextAlloc == 0 {
          FuseBoth(r, bp, next, prevSize + size + nextSize, e);
        } else {
          FuseOne(r, bp, prevSize + size, bp, e);
        }
      } else {
        r := bp;
        FuseEnds(bp, r, e);
        if nextAlloc == 0 {
          FuseOne(bp, next, size + nextSize, bp, e);
        } else {
          NothingToFuse(bp);
        }
      }
    }

    lemma FuseEnds(bp: int, r: int, e: int)
      requires Unsettled(bp) && Fusible(blk, bp, r, e)
      ensures r + 4 <= e <= blockTail && BASE < r && blk[r].prev
      ensures bp < Next(blk, bp) && (!blk[Next(blk, bp)].alloc ==> Next(blk, bp) < e)
    {
      FuseShape(blk, blockTail, bp, r, e);
    }

    /** coalesce: fuse the free block bp with its free neighbours and list the result in its class. */
    method Coalesce(bp: int) returns (r: int, ghost e: int)
      requires Unsettled(bp)
      modifies mem, this`blk, this`fl, this`stamp
      ensures Valid() && Fusible(old(blk), bp, r, e) && blk == Fused(old(blk), r, e)
      ensures AllKept(old(blk), blockTail, old(mem[..]), blk, mem[..], {})
    {
      hide Rings, AllKept, ClassOf, Tiled, FreeListed, Classed, SameOffLinks, StoredBut, CoalescedBut, Coalesced;
      ghost var m0, blk0, fl0 := mem[..], blk, fl;
      r, e := FuseAround(bp);
      ghost var m1 := m0[r - 1 := Encode(Hdr(e - r, true, false))][e - 2 := Encode(Hdr(e - r, true, false))];
      ghost var m2, fl2 := mem[..], fl;
      FuseTagOff(bp, r, e, m0, fl0);
      ListUpdate(r, Hdr(e - r, true, false));
      SameOffLinksTrans(m1, m2, mem[..], fl0, fl2);
      blk := Fused(blk0, r, e);
      CoalesceStep(m0, m1, mem[..], blk0, blk, fl0, blockTail, bp, r, e);
      FuseListed(blk0, blk, fl0, fl, r, e, old(stamp));
    }

    /** The word in front of the fused block is its new header, and its length is even. */
    lemma FuseTagOff(bp: int, r: int, e: int, m0: seq<int>, fl0: Listed)
      requires Placed() && Shape(blk, blockTail) && FreeListed(blk, fl0) && Fusible(blk, bp, r, e) && CoalescedBut(blk, bp)
      requires |m0| == mem.Length && r + 4 <= e <= blockTail && BASE < r && blk[r].prev
      requires var w := Encode(Hdr(e - r, true, false)); SameOffLinks(m0[r - 1 := w][e - 2 := w], mem[..], fl0)
      ensures r - 1 !in fl0 && r - 2 !in fl0 && r in fl0
      ensures mem[r - 1] == Encode(Hdr(e - r, true, false)) && (e - r) % 2 == 0
      ensures r in Fused(blk, r, e) && Fused(blk, r, e)[r] == Hdr(e - r, true, false) && 16 <= 4 * (e - r) < SIZE_T
      ensures Shape(Fused(blk, r, e), blockTail) && Coalesced(Fused(blk, r, e))
    {
      hide Tiled, CoalescedBut, Encode, Chained;
      TagsOffLinks(blk, blockTail, fl0, r);
      FuseShape(blk, blockTail, bp, r, e);
      EndsEven(blk, r, e);
      SizedWithin(blk, blockTail);
    }

    static lemma EndsEven(blk: Blocks, r: int, e: int)
      requires Aligned(blk) && r in blk && e in blk
      ensures (e - r) % 2 == 0
    {
    }

    static lemma SizedWithin(blk: Blocks, tail: int)
      requires Shape(blk, tail)
      ensures forall b :: b in blk ==> HEAD <= b <= tail
    {
    }

    // ---- growing ----

    /** mem_sbrk: its parameter is a C int, so a size_t of 2^31 or more arrives negative. */
    method Sbrk(incr: int) returns (oldBrk: int)
      requires 0 <= incr < SIZE_T && 4 * BASE <= brk <= 4 * BASE + max
      modifies this`brk
      ensures oldBrk == -1 <==> old(NoRoom(incr))
      ensures oldBrk == -1 <==> incr >= 0x8000_0000 || old(brk) + incr > 4 * BASE + max
      ensures oldBrk == -1 ==> brk == old(brk)
      ensures oldBrk != -1 ==> oldBrk == old(brk) && brk == old(brk) + incr <= 4 * BASE + max
    {
      var arg := if incr >= INT_LIMIT then incr - SIZE_T else incr;
      if arg < 0 || brk + arg > 4 * BASE + max {
        return -1;
      }
      oldBrk := brk;
      brk := brk + arg;
    }

    /** The break cannot move by so many bytes. */
    ghost predicate NoRoom(bytes: int)
      reads this
    {
      bytes >= INT_LIMIT || brk - 4 * BASE + bytes > max
    }

    method PrevAllocAt(b: int, ghost h: Hdr) returns (prevAlloc: int)
      requires 1 <= b <= mem.Length && mem[b - 1] == Encode(h) && h.n % 2 == 0
      ensures prevAlloc == Bit(h.prev)
    {
      TagWord(h, 0, true);
      prevAlloc := GetPrevAlloc(mem[b - 1]);
    }

    /** The tags and the list entry of the block that the old epilogue turns into. */
    method ListTail(k: int, ghost h: Hdr)
      requires h.n == k && !h.alloc && k % 2 == 0 && 16 <= 4 * k < SIZE_T && BASE < blockTail && blockTail + k <= mem.Length
      requires Rings(mem[..], fl, stamp) && Insertable(mem[..], fl, blockTail)
      requires mem[blockTail - 1] == Encode(Hdr(0, h.prev, true)) && forall f :: f in fl ==> f + 4 <= blockTail
      modifies mem, this`fl, this`stamp
      ensures fl == old(fl)[blockTail := Slot(ClassOf(4 * k), old(stamp))] && Rings(mem[..], fl, stamp)
      ensures SameOffLinks(old(mem[..])[blockTail - 1 := Encode(h)][blockTail + k - 2 := Encode(h)], mem[..], fl)
    {
      var prevAlloc := PrevAllocAt(blockTail, Hdr(0, h.prev, true));
      Retag(blockTail, 4 * k, prevAlloc, h);
      ListInsert(blockTail, h);
    }

    method Extend(k: int, ghost oldTail: int)
      requires max < INT_LIMIT && mem.Length == BASE + max / 4 && blockHead == HEAD
      requires k % 2 == 0 && k >= 4 && blockTail == oldTail && brk == 4 * (oldTail + k) && oldTail + k <= mem.Length
      requires WellFormed(mem[..], blk, fl, stamp, oldTail) && Classed(blk, fl) && Coalesced(blk)
      modifies mem, this`blk, this`fl, this`stamp, this`blockTail
      ensures 4 * blockTail == brk && blk == Grow(old(blk), oldTail, k) && Unsettled(oldTail)
      ensures AllKept(old(blk), oldTail, old(mem[..]), blk, mem[..], {})
    {
      hide ClassOf, Rings, AllKept, CoalescedBut, Coalesced, SameOffLinks;
      ghost var m0, blk0, fl0 := mem[..], blk, fl;
      GrowReady(m0, blk, fl, stamp, oldTail, k);
      ListTail(k, Hdr(k, blk[oldTail].prev, false));
      ghost var m2 := mem[..];
      EpilogueOffLinks(blk, oldTail, fl, k);
      PutHeader(blockTail + k, 0, 0, 1, Hdr(0, false, true));
      blk := Grow(blk, oldTail, k);
      GrowStep(m0, m2, mem[..], blk0, blk, fl0, fl, old(stamp), oldTail, k);
      blockTail := blockTail + k;
    }

    /** extend_heap: NULL and no change when the break cannot move, else the free block at the end. */
    method ExtendHeap(size: int) returns (r: int, ghost k: int)
      requires Valid() && 0 <= size < SIZE_T
      modifies this, mem
      ensures 4 * k == if Align(size) < MIN_BLOCK_SIZE then MIN_BLOCK_SIZE else Align(size)
      ensures r == NULL <==> old(NoRoom(4 * k))
      ensures Valid() && old(blockTail) in old(blk)
      ensures r == NULL ==> mem[..] == old(mem[..]) && blk == old(blk) && blockTail == old(blockTail)
      ensures r != NULL ==> blockTail == old(blockTail) + k
      ensures r != NULL ==> IsFree(blk, r) && blk[r].n == blockTail - r
      ensures r != NULL ==> if old(blk[blockTail].prev) then r == old(blockTail)
                            else IsFree(old(blk), r) && r < old(blockTail) && Next(old(blk), r) == old(blockTail)
      ensures AllKept(old(blk), old(blockTail), old(mem[..]), blk, mem[..], {}) && Live() == old(Live())
    {
      hide Classed, AllKept, Rings, Tiled, Aligned, Coalesced, CoalescedBut, Fusible, LiveSet, StoredBut, FreeListed, Align;
      AlignIsMultiple(size);
      var bytes := if Align(size) < MIN_BLOCK_SIZE then MIN_BLOCK_SIZE else Align(size);
      k := bytes / 4;
      ghost var tail0 := blockTail;
      assert 4 * k == bytes && k % 2 == 0 && k >= 4 by { Words(bytes); }
      assert BASE <= blockTail && blockTail in blk by { InHeap(); }
      var oldBrk := Sbrk(bytes);
      if oldBrk == -1 {
        KeptSelf(blk, blockTail, mem[..]);
        return NULL, k;
      }
      var oldTail := oldBrk / 4;
      Extend(bytes / 4, oldTail);
      ghost var blk1, m1 := blk, mem[..];
      ghost var e;
      r, e := Coalesce(oldTail);
      GrowFuse(old(blk), tail0, k, r, e);
      KeptTrans(old(blk), tail0, old(mem[..]), blk1, blockTail, m1, blk, mem[..], {}, {});
    }

    lemma InHeap()
      requires Shape(blk, blockTail)
      ensures BASE <= blockTail && blockTail in blk
    {
    }

    // ---- the interface ----

    /** The size of the free block at the end of the heap, read from its footer, or 0. */
    method TailFree() returns (size: int, ghost p: int)
      requires Valid()
      ensures if blk[blockTail].prev then size == 0 && p == blockTail
              else IsFree(blk, p) && p < blockTail && Next(blk, p) == blockTail && size == 4 * blk[p].n
      ensures 4 * (blockTail - p) == size && p in blk && blk[p].n % 2 == 0 && LastFree(blk, blockTail, p)
    {
      HeaderAt(blockTail);
      var _, prevAlloc, _ := Header(blockTail);
      size, p := 0, blockTail;
      if prevAlloc == 0 {
        p := Predecessor(blk, blockTail, blockTail);
        assert Tags(mem[..], blk, p, 0);
        TagWord(blk[p], 0, true);
        size := GetSize(mem[blockTail - 2]);
      }
    }

    /** The free block that ends the heap, or the end itself. */
    static ghost predicate LastFree(blk: Blocks, tail: int, p: int) {
      tail in blk && p in blk && if blk[tail].prev then p == tail else IsFree(blk, p) && p < tail && Next(blk, p) == tail
    }

    /** What mem_sbrk is asked for when so many bytes are lacking. */
    static ghost function Extension(lack: int): int { if lack < MIN_BLOCK_SIZE then MIN_BLOCK_SIZE else lack }

    /** The break, at the end of the heap, cannot move by what a request still lacks behind a free last block. */
    static ghost predicate Blocked(blk: Blocks, tail: int, max: int, bytes: int) {
      forall p {:trigger LastFree(blk, tail, p)} :: LastFree(blk, tail, p) ==>
        var lack := Extension(bytes - 4 * (tail - p)); lack >= INT_LIMIT || 4 * (tail - BASE) + lack > max
    }

    ghost predicate CannotGrow(bytes: int)
      reads this
    {
      Blocked(blk, blockTail, max, bytes)
    }

    static ghost predicate NoneFits(blk: Blocks, bytes: int) {
      forall b :: IsFree(blk, b) ==> 4 * blk[b].n < bytes
    }

    lemma CannotGrowIs(bytes: int, p: int)
      requires Shape(blk, blockTail) && LastFree(blk, blockTail, p) && brk == 4 * blockTail
      ensures CannotGrow(bytes) <==> NoRoom(Extension(bytes - 4 * (blockTail - p)))
      ensures bytes >= MIN_BLOCK_SIZE && p <= blockTail && CannotGrow(bytes) ==> NoRoom(bytes)
    {
      forall q {:trigger LastFree(blk, blockTail, q)} | LastFree(blk, blockTail, q) ensures q == p {
        if !blk[blockTail].prev {
          SameEnd(blk, blockTail, p, q);
        }
      }
    }

    /**
     mm_malloc: NULL with nothing changed, exactly when nothing is asked for or nothing fits and the
     break cannot move, or a new live block of at least AllocSize(size) bytes; every payload that was
     live is kept word for word.
     */
    method Malloc(size: int) returns (r: int)
      requires Valid() && 0 <= size < SIZE_T
      modifies this, mem
      ensures Valid()
      ensures r == NULL ==> mem[..] == old(mem[..]) && blk == old(blk) && blockTail == old(blockTail)
      ensures r == NULL <==> size == 0 || (old(CannotGrow(AllocSize(size))) && NoneFits(old(blk), AllocSize(size)))
      ensures 4 * blockTail <= 4 * old(blockTail) + AllocSize(size)
      ensures r == NULL && size != 0 ==> old(NoRoom(AllocSize(size)))
      ensures r != NULL ==> size != 0 && r !in old(Live()) && Live() == old(Live()) + {r}
      ensures r != NULL ==> r in blk && AllocSize(size) <= 4 * blk[r].n < AllocSize(size) + MIN_BLOCK_SIZE
      ensures r != NULL ==> forall b :: IsFree(old(blk), b) && 4 * old(blk)[b].n >= AllocSize(size) ==>
        IsFree(old(blk), r) && AllocSize(size) <= 4 * old(blk)[r].n <= 4 * old(blk)[b].n && blockTail == old(blockTail)
      ensures AllKept(old(blk), old(blockTail), old(mem[..]), blk, mem[..], {})
    {
      hide Classed, AllKept, Rings, Tiled, Aligned, Coalesced, Fusible, LiveSet, StoredBut, FreeListed, AllocSize, Taken;
      hide CannotGrow, NoRoom;
      AllocSizeFits(size);
      if size == 0 {
        KeptSelf(blk, blockTail, mem[..]);
        return NULL;
      }
      var allocSize := AllocSize(size);
      assert 4 * (allocSize / 4) == allocSize && (allocSize / 4) % 2 == 0 && allocSize >= 16 by { Words(allocSize); }
      var bp := FindFit(allocSize);
      if bp != NULL {
        NotNull(bp);
        Place(bp, allocSize, allocSize / 4);
        return bp;
      }
      var tailSize, p := TailFree();
      assert (allocSize - tailSize) % 8 == 0 by {
        EightTimes(tailSize, p);
        DifferenceOfEights(allocSize, tailSize);
      }
      ghost var k;
      ghost var blk0, tail0 := blk, blockTail;
      CannotGrowIs(allocSize, p);
      AlignMultiple(allocSize - tailSize);
      bp, k := ExtendHeap(allocSize - tailSize);
      if bp == NULL {
        return NULL;
      }
      assert blk[bp].n >= allocSize / 4 by {
        if !blk0[tail0].prev {
          SameEnd(blk0, tail0, p, bp);
        }
      }
      ghost var blk1, m1, live := blk, mem[..], Live();
      Place(bp, allocSize, allocSize / 4);
      KeptGrown(blk0, tail0, old(mem[..]), blk1, m1, blk, mem[..]);
      r := bp;
    }

    lemma NotNull(b: int)
      requires Consistent() && IsFree(blk, b)
      ensures b != NULL
    {
    }

    lemma EightTimes(size: int, p: int)
      requires 4 * (blockTail - p) == size && Shape(blk, blockTail) && p in blk
      ensures size % 8 == 0
    {
      assert blockTail % 2 == 0 && p % 2 == 0;
    }

    /** Transitivity when the epilogue has moved in between. */
    lemma KeptGrown(blk0: Blocks, tail0: int, m0: seq<int>, blk1: Blocks, m1: seq<int>, blk2: Blocks, m2: seq<int>)
      requires |m0| == |m1| == |m2| && Tiled(blk0, tail0) && blockTail > tail0
      requires AllKept(blk0, tail0, m0, blk1, m1, {}) && AllKept(blk1, blockTail, m1, blk2, m2, {})
      ensures AllKept(blk0, tail0, m0, blk2, m2, {})
    {
      KeptTrans(blk0, tail0, m0, blk1, blockTail, m1, blk2, m2, {}, {});
    }

    /** set_alloc(header, 0) and sync_footer for the block b, whose record is h. */
    method PutFree(b: int, ghost h: Hdr)
      requires 4 <= h.n && h.n % 2 == 0 && BASE < b && b + h.n <= mem.Length && mem[b - 1] == Encode(h)
      requires Rings(mem[..], fl, stamp) && b - 1 !in fl && b - 2 !in fl && b + h.n - 2 !in fl && b + h.n - 3 !in fl
      modifies mem
      ensures Rings(mem[..], fl, stamp)
      ensures var w := Encode(h.(alloc := false)); mem[..] == old(mem[..])[b - 1 := w][b + h.n - 2 := w]
    {
      hide Rings, GetSize, SetAlloc, GetAlloc, GetPrevAlloc, SetSize, SetPrevAlloc, Encode;
      TagWord(h, 0, false);
      var size := GetSize(mem[b - 1]);
      PutTag(b - 1, SetAlloc(mem[b - 1], 0));
      PutTag(b + size / 4 - 2, mem[b - 1]);
    }

    lemma ReleaseReady(b: int)
      requires Consistent() && IsLive(blk, blockTail, b)
      ensures var x := b + blk[b].n;
        && b !in fl && 4 <= blk[b].n && x <= mem.Length && 4 * blk[b].n < SIZE_T
        && b - 1 !in fl && b - 2 !in fl && x - 2 !in fl && x - 3 !in fl && Insertable(mem[..], fl, b)
    {
      SizeInRange(b);
      assert !IsFree(blk, b);
      InsideOffLinks(blk, blockTail, fl, b, b - 1);
      InsideOffLinks(blk, blockTail, fl, b, b + blk[b].n - 2);
      CanInsert(mem[..], blk, blockTail, fl, b);
    }

    /** After the block is listed, its header and its successor's are where they were. */
    lemma ReleaseHeaders(b: int, x: int, m1: seq<int>)
      requires Tiled(blk, blockTail) && FreeListed(blk, fl) && SameOffLinks(m1, mem[..], fl) && BASE < b < x <= |m1|
      requires b in blk && x in blk
      ensures mem[b - 1] == m1[b - 1] && mem[x - 1] == m1[x - 1] && x - 1 !in fl && x - 2 !in fl
    {
      TagsOffLinks(blk, blockTail, fl, b);
      TagsOffLinks(blk, blockTail, fl, x);
    }

    /** The part of mm_free before coalesce: clear the A bit, tag, list and announce the block. */
    method Release(ptr: int)
      requires Valid() && IsLive(blk, blockTail, ptr)
      modifies mem, this`blk, this`fl, this`stamp
      ensures Next(old(blk), ptr) in old(blk) && old(blk)[ptr].n != 0 && blk == Mark(old(blk), ptr, false)
      ensures Unsettled(ptr)
      ensures AllKept(old(blk), blockTail, old(mem[..]), blk, mem[..], {ptr})
    {
      hide AllKept, Rings, Tiled, Aligned, SameOffLinks, Insertable, ClassOf, StoredBut, CoalescedBut, Coalesced;
      ghost var m0, blk0, fl0 := mem[..], blk, fl;
      MarkSettles(blk, blockTail, ptr);
      ghost var x := Next(blk, ptr);
      HeaderAt(ptr);
      HeaderAt(x);
      ReleaseReady(ptr);
      PutFree(ptr, blk[ptr]);
      ghost var m1 := mem[..];
      blk := Mark(blk, ptr, false);
      ReleaseReadyAgain(m0, m1, ptr);
      ListInsert(ptr, blk[ptr]);
      ghost var m2 := mem[..];
      ReleaseHeaders(ptr, x, m1);
      var size, _, _ := Header(ptr);
      PutPrevAlloc(ptr + size / 4, 0, blk0[x]);
      ReleaseStored(m0, m1, m2, mem[..], blk0, blk, blockTail, fl, ptr, x);
    }

    lemma ReleaseReadyAgain(m0: seq<int>, m1: seq<int>, b: int)
      requires Insertable(m0, fl, b) && |m0| == |m1|
      ensures Insertable(m1, fl, b)
    {
    }

    /** mm_free: exactly that block stops being live, and every other payload is kept. */
    method Free(ptr: int)
      requires Valid() && (ptr == NULL || ptr in Live())
      modifies mem, this`blk, this`fl, this`stamp
      ensures Valid() && Live() == old(Live()) - {ptr}
      ensures AllKept(old(blk), blockTail, old(mem[..]), blk, mem[..], {ptr})
    {
      hide AllKept, Rings, Tiled, Aligned, StoredBut, CoalescedBut, Coalesced, Fusible, Fused, Classed, FreeListed;
      if ptr == NULL {
        NullIsNotLive();
        KeptSelf(blk, blockTail, mem[..]);
        KeptMore(blk, mem[..], blk, mem[..], {}, {ptr});
        return;
      }
      ghost var m0, blk0 := mem[..], blk;
      Release(ptr);
      ghost var m1, blk1 := mem[..], blk;
      LiveMarked(blk0, blockTail, ptr);
      var r, e := Coalesce(ptr);
      LiveFused(blk1, blockTail, ptr, r, e);
      KeptTrans(blk0, blockTail, m0, blk1, blockTail, m1, blk, mem[..], {ptr}, {});
    }

    lemma NullIsNotLive()
      requires Shape(blk, blockTail)
      ensures NULL !in Live()
    {
    }

    lemma KeptMore(blk1: Blocks, m1: seq<int>, blk2: Blocks, m2: seq<int>, ex: set<int>, ex': set<int>)
      requires |m1| == |m2| && ex <= ex' && AllKept(blk1, blockTail, m1, blk2, m2, ex)
      ensures AllKept(blk1, blockTail, m1, blk2, m2, ex')
    {
    }

    // ---- initialisation ----

    /** mem_init: memory with no meaning yet. */
    constructor (bytes: nat)
      requires bytes < INT_LIMIT
      ensures max == bytes && mem.Length == BASE + bytes / 4 && brk == 4 * BASE && fresh(mem)
    {
      max := bytes;
      mem := new int[BASE + bytes / 4];
      brk := 4 * BASE;
      blockHead, blockTail := NULL, NULL;
      blk, fl, stamp := map[], map[], 0;
    }

    /** The ten list heads, each pointing to itself. */
    method InitLists()
      requires BASE <= mem.Length
      modifies mem
      ensures Rings(mem[..], map[], 0)
    {
      var i := 0;
      while i < NUM_LISTS
        invariant 0 <= i <= NUM_LISTS
        invariant forall c :: 0 <= c < i ==> mem[ListHead(c)] == ListHead(c) && mem[ListHead(c) + 1] == ListHead(c)
      {
        mem[ListHead(i)] := ListHead(i);
        mem[ListHead(i) + 1] := ListHead(i);
        i := i + 1;
      }
      EmptyRings(mem[..]);
    }

    /** mm_init on an empty break: ten empty lists, the prologue and the epilogue. */
    method Init() returns (ret: int)
      requires brk == 4 * BASE && max < INT_LIMIT && mem.Length == BASE + max / 4
      modifies this, mem
      ensures ret == if max < 16 then -1 else 0
      ensures ret == 0 ==> Valid() && Live() == {} && fl == map[] && brk == 4 * BASE + 16
    {
      hide Rings, Encode, LiveSet, Shape, Coalesced, FreeListed, Classed;
      blk, fl, stamp := EmptyHeap(), map[], 0;
      InitLists();
      var base := Sbrk(16);
      if base == -1 {
        return -1;
      }
      blockHead := base / 4 + 2;
      blockTail := blockHead + 2;
      PutHeader(blockHead, 8, 1, 1, Hdr(2, true, true));
      PutHeader(blockTail, 0, 1, 1, Hdr(0, true, true));
      forall b | b in blk ensures Tags(mem[..], blk, b, 0) {
      }
      EmptyHeapShape();
      ret := 0;
    }

    /** The prologue and the epilogue. */
    static ghost function EmptyHeap(): Blocks {
      map[HEAD := Hdr(2, true, true), HEAD + 2 := Hdr(0, true, true)]
    }

    static lemma EmptyHeapShape()
      ensures Shape(EmptyHeap(), HEAD + 2) && Coalesced(EmptyHeap())
      ensures FreeListed(EmptyHeap(), map[]) && Classed(EmptyHeap(), map[]) && LiveSet(EmptyHeap(), HEAD + 2) == {}
    {
      var blk := EmptyHeap();
      assert Next(blk, HEAD) == HEAD + 2;
      assert blk.Keys == {HEAD, HEAD + 2};
    }

    static lemma EmptyRings(m: seq<int>)
      requires BASE <= |m| && forall c :: 0 <= c < NUM_LISTS ==> m[ListHead(c)] == ListHead(c) && m[ListHead(c) + 1] == ListHead(c)
      ensures Rings(m, map[], 0)
    {
    }

    // ---- realloc ----

    /** Nothing, or only a free block, lies between ptr and the end of the heap. */
    static ghost predicate AtEnd(blk: Blocks, tail: int, ptr: int)
      requires ptr in blk
    {
      Next(blk, ptr) == tail || (IsFree(blk, Next(blk, ptr)) && Next(blk, Next(blk, ptr)) == tail)
    }

    /** The words of ptr and of a free block behind it. */
    static ghost function Span(blk: Blocks, ptr: int): int
      requires ptr in blk
    {
      blk[ptr].n + if IsFree(blk, Next(blk, ptr)) then blk[Next(blk, ptr)].n else 0
    }

    /** realloc, first step: a block at the end of the heap makes room by moving the break. */
    method GrowAtEnd(ptr: int, allocSize: int) returns (ok: bool)
      requires Valid() && ptr in Live() && 16 <= allocSize < SIZE_T && allocSize % 8 == 0
      modifies this, mem
      ensures Valid() && Live() == old(Live())
      ensures AllKept(old(blk), old(blockTail), old(mem[..]), blk, mem[..], {})
      ensures !ok ==> mem[..] == old(mem[..]) && blk == old(blk) && blockTail == old(blockTail) && old(NoRoom(allocSize))
      ensures !ok <==> old(AtEnd(blk, blockTail, ptr)) && 4 * old(Span(blk, ptr)) < allocSize &&
                       old(NoRoom(Extension(allocSize - 4 * Span(blk, ptr))))
      ensures 4 * blockTail <= 4 * old(blockTail) + allocSize
      ensures ptr in old(blk) && ptr in blk && blk[ptr].n == old(blk)[ptr].n
      ensures ok && old(AtEnd(blk, blockTail, ptr)) ==> AtEnd(blk, blockTail, ptr) && 4 * Span(blk, ptr) >= allocSize
      ensures !old(AtEnd(blk, blockTail, ptr)) ==> blk == old(blk) && blockTail == old(blockTail)
    {
      hide AllKept, Rings, Tiled, StoredBut, Coalesced, Classed, FreeListed, LiveSet;
      hide AtEnd, Span;
      ghost var m0, blk0, tail0 := mem[..], blk, blockTail;
      NextOfLive(ptr);
      EndShape(blk, blockTail, ptr);
      HeaderAt(ptr);
      var size, _, _ := Header(ptr);
      var next := ptr + size / 4;
      HeaderAt(next);
      var nextSize, _, nextAlloc := Header(next);
      ok := true;
      KeptSelf(blk, blockTail, mem[..]);
      if next == blockTail || (nextAlloc == 0 && next + nextSize / 4 == blockTail) {
        var merged := size + nextSize;
        if merged < allocSize {
          SizeInRange(ptr);
          SizeInRange(next);
          EightTimesTwo(ptr, next);
          DifferenceOfEights(allocSize, merged);
          AlignMultiple(allocSize - merged);
          var r, k := ExtendHeap(allocSize - merged);
          ok := r != NULL;
          if ok {
            KeptOne(blk0, tail0, m0, blk, mem[..], {}, ptr);
            GrownEnd(blk0, tail0, blk, blockTail, ptr, r);
          }
        }
      }
    }

    /** The end of the heap seen from a live block. */
    static lemma EndShape(blk: Blocks, tail: int, ptr: int)
      requires Tiled(blk, tail) && IsLive(blk, tail, ptr)
      ensures Next(blk, ptr) in blk && tail in blk && blk[tail].alloc && blk[tail].n == 0
      ensures var x := Next(blk, ptr); AtEnd(blk, tail, ptr) <==> x == tail || (!blk[x].alloc && x + blk[x].n == tail)
      ensures Span(blk, ptr) == blk[ptr].n + if blk[Next(blk, ptr)].alloc then 0 else blk[Next(blk, ptr)].n
      ensures AtEnd(blk, tail, ptr) ==> (blk[tail].prev <==> Next(blk, ptr) == tail)
    {
      assert Next(blk, ptr) in blk && blk[Next(blk, ptr)].prev == blk[ptr].alloc;
      if AtEnd(blk, tail, ptr) && Next(blk, ptr) != tail {
        var x := Next(blk, ptr);
        assert Next(blk, x) in blk && blk[Next(blk, x)].prev == blk[x].alloc;
      }
    }

    /** Extending the heap behind ptr leaves one free block from its end to the end of the heap. */
    static lemma GrownEnd(blk0: Blocks, tail0: int, blk1: Blocks, tail1: int, ptr: int, r: int)
      requires Tiled(blk0, tail0) && IsLive(blk0, tail0, ptr) && AtEnd(blk0, tail0, ptr) && tail0 in blk0
      requires ptr in blk1 && blk1[ptr].n == blk0[ptr].n && IsFree(blk1, r) && blk1[r].n == tail1 - r
      requires if blk0[tail0].prev then r == tail0 else IsFree(blk0, r) && r < tail0 && Next(blk0, r) == tail0
      ensures AtEnd(blk1, tail1, ptr) && Span(blk1, ptr) == tail1 - ptr
    {
      EndShape(blk0, tail0, ptr);
      if !blk0[tail0].prev {
        SameEnd(blk0, tail0, r, Next(blk0, ptr));
      }
    }

    lemma NextOfLive(b: int)
      requires Shape(blk, blockTail) && b in Live()
      ensures b in blk && b != blockTail && Next(blk, b) in blk && blk[b].alloc && IsLive(blk, blockTail, b) && b != NULL
      ensures blk[b].n >= 4 && b > HEAD
    {
      assert Next(blk, b) in blk;
    }

    static lemma DifferenceOfEights(a: int, b: int)
      requires a % 8 == 0 && b % 8 == 0
      ensures (a - b) % 8 == 0
    {
    }

    lemma EightTimesTwo(a: int, b: int)
      requires Shape(blk, blockTail) && a in blk && b in blk
      ensures (4 * blk[a].n + 4 * blk[b].n) % 8 == 0
    {
      assert blk[a].n % 2 == 0 && blk[b].n % 2 == 0;
    }

    /** set_size on the header of b, whose record is h. */
    method PutSize(b: int, size: int, ghost h: Hdr, ghost k: int)
      requires h.n % 2 == 0 && size == 4 * k
      requires Rings(mem[..], fl, stamp) && BASE < b <= mem.Length && b - 1 !in fl && b - 2 !in fl
      requires mem[b - 1] == Encode(h)
      modifies mem
      ensures mem[..] == old(mem[..])[b - 1 := Encode(h.(n := k))] && Rings(mem[..], fl, stamp)
    {
      hide Rings, GetSize, SetAlloc, GetAlloc, GetPrevAlloc, SetSize, SetPrevAlloc, Encode;
      TagWord(h, k, true);
      PutTag(b - 1, SetSize(mem[b - 1], size));
    }

    /** realloc, second step: swallow the free block x behind the live block ptr. */
    method SwallowNext(ptr: int, x: int)
      requires Valid() && ptr in Live() && x == ptr + blk[ptr].n && IsFree(blk, x)
      modifies mem, this`blk, this`fl
      ensures Valid() && Live() == old(Live())
      ensures AllKept(old(blk), blockTail, old(mem[..]), blk, mem[..], {ptr})
      ensures ptr in blk && blk[ptr].n == old(blk[ptr].n + blk[x].n) >= old(blk[ptr].n)
      ensures Next(old(blk), x) in old(blk) && ptr in old(blk) && blk == Merge(old(blk), ptr, x)
      ensures SamePrefix(old(mem[..]), mem[..], ptr, old(blk[ptr].n) - 1)
    {
      hide AllKept, Rings, Tiled, Aligned, StoredBut, Coalesced, Classed, FreeListed, LiveSet, SameOffLinks;
      ghost var m0, blk0, fl0 := mem[..], blk, fl;
      NextOfLive(ptr);
      SwallowSettles(blk, blockTail, ptr, x);
      ghost var y := Next(blk, x);
      InFreeList(x);
      ListErase(x);
      ghost var m1 := mem[..];
      StoredOffLinks(m0, m1, blk, blockTail, fl0);
      KeptOffLinks(m0, m1, blk, blockTail, fl0);
      HeaderAt(ptr);
      HeaderAt(x);
      HeaderAt(y);
      SwallowOffLinks(ptr, x, y, fl0);
      var size, _, _ := Header(ptr);
      var nextSize, _, _ := Header(x);
      PutSize(ptr, size + nextSize, blk[ptr], blk[ptr].n + blk[x].n);
      PutPrevAlloc(ptr + (size + nextSize) / 4, 1, blk[y]);
      blk := Merge(blk, ptr, x);
      SwallowStored(m1, mem[..], blk0, blk, blockTail, ptr, x);
      SwallowListed(blk0, blk, fl0, x);
      KeptTrans2(blk0, m0, m1, blk, mem[..], ptr);
    }

    lemma InFreeList(x: int)
      requires FreeListed(blk, fl) && IsFree(blk, x)
      ensures x in fl
    {
    }

    lemma SwallowOffLinks(ptr: int, x: int, y: int, fl0: Listed)
      requires Tiled(blk, blockTail) && FreeListed(blk, fl0) && ptr in blk && x in blk && y in blk
      ensures ptr - 1 !in fl0 && ptr - 2 !in fl0 && y - 1 !in fl0 && y - 2 !in fl0
    {
      TagsOffLinks(blk, blockTail, fl0, ptr);
      TagsOffLinks(blk, blockTail, fl0, y);
    }

    lemma KeptTrans2(blk0: Blocks, m0: seq<int>, m1: seq<int>, blk2: Blocks, m2: seq<int>, ptr: int)
      requires |m0| == |m1| == |m2| && IsLive(blk0, blockTail, ptr)
      requires AllKept(blk0, blockTail, m0, blk0, m1, {}) && AllKept(blk0, blockTail, m1, blk2, m2, {ptr})
      ensures AllKept(blk0, blockTail, m0, blk2, m2, {ptr})
      ensures forall i :: ptr <= i < ptr + blk0[ptr].n - 1 && 0 <= i < |m0| ==> m1[i] == m0[i]
    {
      assert Kept(blk0, m0, blk0, m1, ptr);
      forall b | IsLive(blk0, blockTail, b) && b != ptr ensures Kept(blk0, m0, blk2, m2, b) {
        assert Kept(blk0, m0, blk0, m1, b) && Kept(blk0, m1, blk2, m2, b);
      }
    }

    /** Cuts the live block ptr after k words into two live blocks. */
    method CutLive(ptr: int, thisSize: int, allocSize: int, ghost k: int)
      requires Valid() && ptr in Live() && thisSize == 4 * blk[ptr].n && allocSize == 4 * k
      requires k % 2 == 0 && 4 <= k <= blk[ptr].n - 4
      modifies mem, this`blk
      ensures Valid() && Live() == old(Live()) + {ptr + k} && ptr + k !in old(Live())
      ensures AllKept(old(blk), blockTail, old(mem[..]), blk, mem[..], {ptr})
      ensures blk == Split(old(blk), ptr, k) && SamePrefix(old(mem[..]), mem[..], ptr, k - 1)
    {
      hide AllKept, Rings, Tiled, Aligned, StoredBut, Coalesced, Classed, FreeListed;
      ghost var m0, blk0 := mem[..], blk;
      NextOfLive(ptr);
      ShrinkSettles(blk, blockTail, ptr, k);
      HeaderAt(ptr);
      SizeInRange(ptr);
      NotFree(ptr);
      InsideOffLinks(blk, blockTail, fl, ptr, ptr - 1);
      InsideOffLinks(blk, blockTail, fl, ptr, ptr + k - 1);
      PutSize(ptr, allocSize, blk[ptr], k);
      PutHeader(ptr + allocSize / 4, thisSize - allocSize, 1, 1, Hdr(blk[ptr].n - k, true, true));
      blk := Split(blk, ptr, k);
      ShrinkStored(m0, mem[..], blk0, blk, blockTail, ptr, k);
      SameFree(blk0, blk);
    }

    lemma NotFree(b: int)
      requires FreeListed(blk, fl) && IsLive(blk, blockTail, b)
      ensures b !in fl && forall f :: f in fl ==> IsFree(blk, f)
    {
    }

    lemma SameFree(blk0: Blocks, blk1: Blocks)
      requires FreeListed(blk0, fl) && Classed(blk0, fl)
      requires (forall c :: IsFree(blk1, c) <==> IsFree(blk0, c)) && (forall c :: IsFree(blk1, c) ==> blk1[c] == blk0[c])
      ensures FreeListed(blk1, fl) && Classed(blk1, fl)
    {
    }

    /** realloc, third step: give back the end of a block that is larger than needed. */
    method ShrinkToFit(ptr: int, thisSize: int, allocSize: int, ghost k: int)
      requires Valid() && ptr in Live() && thisSize == 4 * blk[ptr].n && allocSize == 4 * k
      requires k % 2 == 0 && 4 <= k <= blk[ptr].n
      modifies mem, this`blk, this`fl, this`stamp
      ensures Valid() && Live() == old(Live())
      ensures AllKept(old(blk), blockTail, old(mem[..]), blk, mem[..], {ptr})
      ensures ptr in blk && k <= blk[ptr].n <= old(blk[ptr].n) && blk[ptr].n < k + 4
      ensures SamePrefix(old(mem[..]), mem[..], ptr, k - 1)
    {
      hide AllKept, Rings, Tiled, Aligned, StoredBut, Coalesced, Classed, FreeListed, LiveSet;
      ghost var m0, blk0 := mem[..], blk;
      NextOfLive(ptr);
      if allocSize + MIN_BLOCK_SIZE <= thisSize {
        CutLive(ptr, thisSize, allocSize, k);
        ghost var m1, blk1 := mem[..], blk;
        assert ptr in Live();
        NextOfLive(ptr);
        Free(ptr + allocSize / 4);
        KeptAcross(blk0, m0, blk1, m1, blk, mem[..], ptr, ptr + k);
      } else {
        KeptSelf(blk, blockTail, mem[..]);
        KeptMore(blk, mem[..], blk, mem[..], {}, {ptr});
      }
    }

    lemma KeptAcross(blk0: Blocks, m0: seq<int>, blk1: Blocks, m1: seq<int>, blk2: Blocks, m2: seq<int>, ptr: int, q: int)
      requires |m0| == |m1| == |m2| && q !in LiveSet(blk0, blockTail) && ptr != q && IsLive(blk1, blockTail, ptr)
      requires AllKept(blk0, blockTail, m0, blk1, m1, {ptr}) && AllKept(blk1, blockTail, m1, blk2, m2, {q})
      ensures AllKept(blk0, blockTail, m0, blk2, m2, {ptr}) && Kept(blk1, m1, blk2, m2, ptr)
    {
      forall b | IsLive(blk0, blockTail, b) && b != ptr ensures Kept(blk0, m0, blk2, m2, b) {
        assert b in LiveSet(blk0, blockTail);
        assert Kept(blk0, m0, blk1, m1, b) && Kept(blk1, m1, blk2, m2, b);
      }
    }

    /** memcpy of n bytes between block starts: whole words, then the low bytes of the last word. */
    method CopyBytes(dst: int, src: int, n: int)
      requires 0 <= n && 0 <= dst && dst + (n + 3) / 4 <= mem.Length && 0 <= src && src + (n + 3) / 4 <= mem.Length
      requires dst + (n + 3) / 4 <= src || src + (n + 3) / 4 <= dst
      modifies mem
      ensures forall i :: 0 <= i < mem.Length && !(dst <= i < dst + (n + 3) / 4) ==> mem[i] == old(mem[i])
      ensures SameBytes(old(mem[..]), src, mem[..], dst, n)
    {
      var i := 0;
      while i < n / 4
        invariant 0 <= i <= n / 4
        invariant forall j :: 0 <= j < mem.Length && !(dst <= j < dst + i) ==> mem[j] == old(mem[j])
        invariant forall j :: dst <= j < dst + i ==> mem[j] == old(mem[src + (j - dst)])
      {
        mem[dst + i] := mem[src + i];
        i := i + 1;
      }
      if n % 4 != 0 {
        mem[dst + n / 4] := LowBytes(mem[dst + n / 4], mem[src + n / 4], n % 4);
      }
      CopiedBytes(old(mem[..]), src, mem[..], dst, n);
    }

    /** Copies the first n bytes of live block src into the live block dst. */
    method CopyPayload(dst: int, src: int, n: int)
      requires Valid() && dst in Live() && src in Live() && dst != src
      requires 0 <= n <= 4 * blk[dst].n - 4 && n <= 4 * blk[src].n - 4
      modifies mem
      ensures Valid() && AllKept(blk, blockTail, old(mem[..]), blk, mem[..], {dst})
      ensures SameBytes(old(mem[..]), src, mem[..], dst, n)
    {
      hide AllKept, Rings, Aligned, StoredBut, Coalesced, Classed, FreeListed, SameBytes;
      ghost var m0 := mem[..];
      NextOfLive(dst);
      NextOfLive(src);
      SizeInRange(dst);
      SizeInRange(src);
      OutsideBlock(blk, dst, src);
      CopyBytes(dst, src, n);
      PayloadWrite(m0, mem[..], blk, fl, stamp, blockTail, dst);
    }

    /** memset of n bytes of the live block b: whole words, then the low bytes of the last word. */
    method FillPayload(b: int, v: int, n: int)
      requires Valid() && b in Live() && 0 <= v < 0x100 && 0 <= n <= 4 * blk[b].n - 4
      modifies mem
      ensures Valid() && AllKept(blk, blockTail, old(mem[..]), blk, mem[..], {b})
      ensures Filled(mem[..], b, n, v)
    {
      hide AllKept, Rings, Aligned, StoredBut, Coalesced, Classed, FreeListed, Splat, LowBytes, Tiled;
      ghost var m0 := mem[..];
      NextOfLive(b);
      SizeInRange(b);
      var i := 0;
      while i < n / 4
        invariant 0 <= i <= n / 4
        invariant forall j :: 0 <= j < mem.Length && !(b <= j < b + i) ==> mem[j] == m0[j]
        invariant forall j :: b <= j < b + i ==> mem[j] == Splat(v)
        modifies mem
      {
        mem[b + i] := Splat(v);
        i := i + 1;
      }
      if n % 4 != 0 {
        mem[b + n / 4] := LowBytes(mem[b + n / 4], Splat(v), n % 4);
      }
      assert OnlyPayload(m0, mem[..], blk, b);
      PayloadWrite(m0, mem[..], blk, fl, stamp, blockTail, b);
      FilledBytes(m0, mem[..], b, n, v);
    }

    /** The bytes of a kept live block. */
    lemma KeptBytes(blk0: Blocks, m0: seq<int>, blk1: Blocks, m1: seq<int>, b: int, n: int)
      requires b in blk0 && |m0| == |m1| && Kept(blk0, m0, blk1, m1, b) && 0 <= b && n <= 4 * blk0[b].n - 4
      ensures SameBytes(m0, b, m1, b, n)
    {
      WordsGiveBytes(m0, b, m1, n);
    }

    /** realloc, last resort: a new block, a copy, and the old block freed. */
    method Move(ptr: int, size: int, oldSize: int) returns (r: int)
      requires Valid() && ptr in Live() && 0 < size < SIZE_T && 0 <= oldSize <= 4 * blk[ptr].n - 4
      requires AllocSize(size) > MIN_BLOCK_SIZE
      modifies this, mem
      ensures Valid()
      ensures r == NULL ==> mem[..] == old(mem[..]) && blk == old(blk) && blockTail == old(blockTail)
      ensures r == NULL <==> old(CannotGrow(AllocSize(size))) && NoneFits(old(blk), AllocSize(size))
      ensures r == NULL ==> old(NoRoom(AllocSize(size)))
      ensures 4 * blockTail <= 4 * old(blockTail) + AllocSize(size)
      ensures r != NULL ==> r !in old(Live()) && Live() == old(Live()) - {ptr} + {r}
      ensures r != NULL ==> r in blk && 4 * blk[r].n >= AllocSize(size)
      ensures r != NULL ==> SameBytes(old(mem[..]), ptr, mem[..], r, if size < oldSize then size else oldSize)
      ensures AllKept(old(blk), old(blockTail), old(mem[..]), blk, mem[..], {ptr})
    {
      hide AllKept, Rings, Tiled, Aligned, StoredBut, Coalesced, Classed, FreeListed, SameBytes, LiveSet, AllocSize, NoRoom;
      ghost var m0, blk0, tail0, live0 := mem[..], blk, blockTail, Live();
      NextOfLive(ptr);
      AllocSizeFits(size);
      r := Malloc(size);
      if r == NULL {
        KeptMore0(blk0, tail0, m0, blk, mem[..], ptr);
        return;
      }
      ghost var m1, blk1 := mem[..], blk;
      NextOfLive(ptr);
      NextOfLive(r);
      KeptOne(blk0, tail0, m0, blk1, m1, {}, ptr);
      var n := if size < oldSize then size else oldSize;
      CopyPayload(r, ptr, n);
      ghost var m2 := mem[..];
      Free(ptr);
      MoveBytes(m0, blk0, m1, blk1, m2, ptr, r, n);
      MoveKept(blk0, tail0, m0, blk1, m1, m2, ptr, r, live0);
    }

    lemma KeptOne(blk0: Blocks, tail0: int, m0: seq<int>, blk1: Blocks, m1: seq<int>, ex: set<int>, b: int)
      requires |m0| == |m1| && AllKept(blk0, tail0, m0, blk1, m1, ex) && IsLive(blk0, tail0, b) && b !in ex
      ensures Kept(blk0, m0, blk1, m1, b)
    {
    }

    lemma KeptMore0(blk0: Blocks, tail0: int, m0: seq<int>, blk1: Blocks, m1: seq<int>, b: int)
      requires |m0| == |m1| && AllKept(blk0, tail0, m0, blk1, m1, {})
      ensures AllKept(blk0, tail0, m0, blk1, m1, {b})
    {
    }

    /** The bytes survive the malloc, the copy and the free. */
    lemma MoveBytes(m0: seq<int>, blk0: Blocks, m1: seq<int>, blk1: Blocks, m2: seq<int>, ptr: int, r: int, n: int)
      requires |m0| == |m1| == |m2| == mem.Length && ptr in blk0 && Kept(blk0, m0, blk1, m1, ptr) && ptr != r
      requires Tiled(blk1, blockTail) && IsLive(blk1, blockTail, r) && IsLive(blk1, blockTail, ptr) && blockTail <= |m0|
      requires 0 <= n <= 4 * blk1[ptr].n - 4 && n <= 4 * blk1[r].n - 4
      requires SameBytes(m1, ptr, m2, r, n) && AllKept(blk1, blockTail, m2, blk, mem[..], {ptr})
      ensures SameBytes(m0, ptr, mem[..], r, n) && r in blk && blk[r].n == blk1[r].n
    {
      hide SameBytes, Rings, Chained;
      assert Kept(blk1, m2, blk, mem[..], r);
      KeptBytes(blk0, m0, blk1, m1, ptr, n);
      KeptBytes(blk1, m2, blk, mem[..], r, n);
      InRange(blk1, ptr);
      InRange(blk1, r);
      SameBytesTrans(m0, ptr, m1, ptr, m2, r, n, n);
      SameBytesTrans(m0, ptr, m2, r, mem[..], r, n, n);
    }

    lemma InRange(blk1: Blocks, b: int)
      requires Tiled(blk1, blockTail) && IsLive(blk1, blockTail, b)
      ensures 0 <= b && b + blk1[b].n <= blockTail
    {
      assert Next(blk1, b) in blk1;
    }

    lemma MoveKept(blk0: Blocks, tail0: int, m0: seq<int>, blk1: Blocks, m1: seq<int>, m2: seq<int>, ptr: int, r: int,
                   live0: set<int>)
      requires |m0| == |m1| == |m2| == mem.Length && live0 == LiveSet(blk0, tail0) && r !in live0
      requires AllKept(blk0, tail0, m0, blk1, m1, {}) && AllKept(blk1, blockTail, m1, blk1, m2, {r})
      requires AllKept(blk1, blockTail, m2, blk, mem[..], {ptr}) && live0 <= LiveSet(blk1, blockTail)
      ensures AllKept(blk0, tail0, m0, blk, mem[..], {ptr})
    {
      forall b | IsLive(blk0, tail0, b) && b != ptr ensures Kept(blk0, m0, blk, mem[..], b) {
        assert b in live0;
        assert Kept(blk0, m0, blk1, m1, b) && Kept(blk1, m1, blk1, m2, b) && Kept(blk1, m2, blk, mem[..], b);
      }
    }

    /** Steps one and two of realloc: move the break if ptr is last, then swallow a free successor. */
    method GrowInPlace(ptr: int, allocSize: int) returns (ok: bool)
      requires Valid() && ptr in Live() && 16 <= allocSize < SIZE_T && allocSize % 8 == 0
      modifies this, mem
      ensures Valid() && Live() == old(Live())
      ensures AllKept(old(blk), old(blockTail), old(mem[..]), blk, mem[..], {ptr})
      ensures ptr in old(blk) && ptr in blk && blk[ptr].n >= old(blk)[ptr].n
      ensures SamePrefix(old(mem[..]), mem[..], ptr, old(blk)[ptr].n - 1)
      ensures !ok ==> blockTail == old(blockTail) && old(NoRoom(allocSize))
      ensures !ok <==> old(AtEnd(blk, blockTail, ptr)) && 4 * old(Span(blk, ptr)) < allocSize &&
                       old(NoRoom(Extension(allocSize - 4 * Span(blk, ptr))))
      ensures ok && old(AtEnd(blk, blockTail, ptr)) ==> 4 * blk[ptr].n >= allocSize
      ensures !old(AtEnd(blk, blockTail, ptr)) ==> blk[ptr].n == old(Span(blk, ptr)) && blockTail == old(blockTail)
      ensures !old(AtEnd(blk, blockTail, ptr)) && 4 * old(Span(blk, ptr)) < allocSize ==>
        && (CannotGrow(allocSize) <==> old(CannotGrow(allocSize)))
        && (NoneFits(blk, allocSize) <==> NoneFits(old(blk), allocSize))
      ensures 4 * blockTail <= 4 * old(blockTail) + allocSize
    {
      hide AllKept, Rings, Tiled, Aligned, StoredBut, Coalesced, Classed, FreeListed, LiveSet, NoRoom, AtEnd, Span;
      hide Blocked, NoneFits, Extension;
      ghost var m0, blk0, tail0 := mem[..], blk, blockTail;
      NextOfLive(ptr);
      ok := GrowAtEnd(ptr, allocSize);
      ghost var m1, blk1 := mem[..], blk;
      KeptOne(blk0, tail0, m0, blk1, m1, {}, ptr);
      KeptMore0(blk0, tail0, m0, blk1, m1, ptr);
      NextOfLive(ptr);
      EndShape(blk, blockTail, ptr);
      if ok {
        HeaderAt(ptr);
        var size, _, _ := Header(ptr);
        var next := ptr + size / 4;
        HeaderAt(next);
        var _, _, nextAlloc := Header(next);
        if nextAlloc == 0 {
          SwallowNext(ptr, next);
          KeptByLive(blk0, tail0, m0, blk1, blockTail, m1, ptr);
          SwallowKeepsNeed(blk1, blk, blockTail, max, ptr, next, allocSize);
        }
      }
    }

    /** Swallowing a block that is too small, in the middle of the heap, changes nothing for a request. */
    static lemma SwallowKeepsNeed(blk0: Blocks, blk1: Blocks, tail: int, max: int, ptr: int, x: int, bytes: int)
      requires Shape(blk0, tail) && Coalesced(blk0) && IsLive(blk0, tail, ptr) && x == Next(blk0, ptr) && IsFree(blk0, x)
      requires Next(blk0, x) in blk0 && blk1 == Merge(blk0, ptr, x)
      ensures !AtEnd(blk0, tail, ptr) && 4 * Span(blk0, ptr) < bytes ==>
        && (Blocked(blk1, tail, max, bytes) <==> Blocked(blk0, tail, max, bytes))
        && (NoneFits(blk1, bytes) <==> NoneFits(blk0, bytes))
    {
      hide Coalesced, Extension;
      SwallowSettles(blk0, tail, ptr, x);
      EndShape(blk0, tail, ptr);
      if !AtEnd(blk0, tail, ptr) && 4 * Span(blk0, ptr) < bytes {
        assert Next(blk0, x) != tail && tail in blk0 && blk1[tail] == blk0[tail];
        forall p {:trigger LastFree(blk0, tail, p)} {:trigger LastFree(blk1, tail, p)}
          ensures LastFree(blk1, tail, p) <==> LastFree(blk0, tail, p)
        {
        }
        assert blk0[ptr].n >= 0;
      }
    }

    /** Transitivity through a state with the same live blocks, when the break may move again. */
    lemma KeptByLive(blk0: Blocks, tail0: int, m0: seq<int>, blk1: Blocks, tail1: int, m1: seq<int>, ptr: int)
      requires |m0| == |m1| == mem.Length && LiveSet(blk0, tail0) == LiveSet(blk1, tail1)
      requires AllKept(blk0, tail0, m0, blk1, m1, {ptr}) && AllKept(blk1, tail1, m1, blk, mem[..], {ptr})
      ensures AllKept(blk0, tail0, m0, blk, mem[..], {ptr})
    {
      forall b | IsLive(blk0, tail0, b) && b != ptr ensures Kept(blk0, m0, blk, mem[..], b) {
        assert b in LiveSet(blk0, tail0);
        assert Kept(blk0, m0, blk1, m1, b) && Kept(blk1, m1, blk, mem[..], b);
      }
    }

    /** How many bytes a successful realloc must carry over. */
    ghost function Carried(size: int, oldBytes: int): int
    {
      Min(size, Min(oldBytes, AllocSize(size) - 4))
    }

    /**
     When resizing ptr fails: it and a free block behind it are too small, and the break cannot move by what
     is lacking if they end the heap, or else a new block can be had neither from the lists nor from the break.
     */
    ghost predicate CannotResize(ptr: int, bytes: int)
      reads this
    {
      && ptr in blk && 4 * Span(blk, ptr) < bytes
      && if AtEnd(blk, blockTail, ptr) then NoRoom(Extension(bytes - 4 * Span(blk, ptr)))
         else CannotGrow(bytes) && NoneFits(blk, bytes)
    }

    /** The sizes at which mm_sbrk refuses, in bytes: behind a live last block, and behind a free one of f words. */
    lemma CannotGrowExactly(bytes: int, p: int)
      requires Valid() && bytes >= 16
      ensures blk[blockTail].prev ==>
        (CannotGrow(bytes) <==> bytes >= 0x8000_0000 || 4 * (blockTail - 22) + bytes > max)
      ensures p in blk && !blk[p].alloc && p + blk[p].n == blockTail ==>
        (CannotGrow(bytes) <==> bytes - 4 * blk[p].n >= 0x8000_0000 || 4 * (blockTail - 22) + 16 > max ||
                                4 * (blockTail - 22) + bytes - 4 * blk[p].n > max)
    {
      hide Rings, StoredBut, Aligned, Classed, FreeListed, CannotGrow, Coalesced;
      if blk[blockTail].prev {
        CannotGrowIs(bytes, blockTail);
      }
      if p in blk && !blk[p].alloc && p + blk[p].n == blockTail {
        assert Next(blk, p) == blockTail;
        CannotGrowIs(bytes, p);
      }
    }

    /** When resizing fails, in the words of the blocks themselves; x is where the block behind ptr starts. */
    lemma CannotResizeExactly(ptr: int, bytes: int)
      requires Valid() && ptr in Live()
      ensures ptr in blk
      ensures var x := ptr + blk[ptr].n;
        var room := blk[ptr].n + if x in blk && !blk[x].alloc then blk[x].n else 0;
        var lack := if bytes - 4 * room < 16 then 16 else bytes - 4 * room;
        CannotResize(ptr, bytes) <==>
          4 * room < bytes &&
          (if ptr + room == blockTail then lack >= 0x8000_0000 || 4 * (blockTail - 22) + lack > max
           else CannotGrow(bytes) && forall b :: b in blk && !blk[b].alloc ==> 4 * blk[b].n < bytes)
    {
      hide Rings, StoredBut, Aligned, Classed, FreeListed, CannotGrow, Coalesced;
      assert Next(blk, ptr) in blk;
      var x := Next(blk, ptr);
      assert x != blockTail ==> Next(blk, x) in blk;
      assert IsFree(blk, x) ==> x != blockTail;
    }

    /** mm_realloc of a live block to a positive size. */
    method Resize(ptr: int, size: int) returns (r: int)
      requires Valid() && ptr in Live() && 0 < size < SIZE_T
      modifies this, mem
      ensures Valid() && ptr in old(blk)
      ensures r == NULL ==> Live() == old(Live()) && ptr in blk && blk[ptr].n >= old(blk)[ptr].n
      ensures r == NULL ==> SameBytes(old(mem[..]), ptr, mem[..], ptr, 4 * old(blk)[ptr].n - 4)
      ensures r == NULL <==> old(CannotResize(ptr, AllocSize(size)))
      ensures r == NULL ==> old(NoRoom(AllocSize(size))) && blockTail == old(blockTail)
      ensures 4 * blockTail <= 4 * old(blockTail) + AllocSize(size)
      ensures AllocSize(size) <= 4 * old(Span(blk, ptr)) ==> r == ptr
      ensures old(AtEnd(blk, blockTail, ptr)) ==> r == ptr || r == NULL
      ensures r != NULL ==> (r == ptr || r !in old(Live())) && Live() == old(Live()) - {ptr} + {r}
      ensures r != NULL ==> r in blk && 4 * blk[r].n >= AllocSize(size)
      ensures r == ptr ==> 4 * blk[r].n < AllocSize(size) + MIN_BLOCK_SIZE
      ensures r != NULL ==> SameBytes(old(mem[..]), ptr, mem[..], r, Carried(size, 4 * old(blk)[ptr].n - 4))
      ensures AllKept(old(blk), old(blockTail), old(mem[..]), blk, mem[..], {ptr})
    {
      hide AllKept, Rings, Tiled, Aligned, StoredBut, Coalesced, Classed, FreeListed, LiveSet, AllocSize, SameBytes, AtEnd, Span;
      ghost var m0, blk0, tail0 := mem[..], blk, blockTail;
      NextOfLive(ptr);
      HeaderAt(ptr);
      var header, _, _ := Header(ptr);
      var oldSize := header - 4;
      AllocSizeFits(size);
      var allocSize := AllocSize(size);
      assert 4 * (allocSize / 4) == allocSize && (allocSize / 4) % 2 == 0 by { Words(allocSize); }
      var ok := GrowInPlace(ptr, allocSize);
      ghost var m1, blk1, tail1 := mem[..], blk, blockTail;
      WordsGiveBytes(m0, ptr, m1, oldSize);
      if !ok {
        return NULL;
      }
      NextOfLive(ptr);
      HeaderAt(ptr);
      var thisSize, _, _ := Header(ptr);
      if allocSize <= thisSize {
        ShrinkToFit(ptr, thisSize, allocSize, allocSize / 4);
        KeptByLive(blk0, tail0, m0, blk1, tail1, m1, ptr);
        InPlaceBytes(m0, m1, ptr, blk0[ptr].n, allocSize / 4, size);
        return ptr;
      }
      SizeInRange(ptr);
      assert ptr + (oldSize + 3) / 4 <= mem.Length;
      r := Move(ptr, size, oldSize);
      KeptByLive(blk0, tail0, m0, blk1, tail1, m1, ptr);
      if r != NULL {
        NextOfLive(r);
      }
      MovedBytes(m0, m1, ptr, r, oldSize, size);
    }

    lemma InPlaceBytes(m0: seq<int>, m1: seq<int>, ptr: int, n: int, k: int, size: int)
      requires |m0| == |m1| == mem.Length && 0 <= ptr && 4 * k == AllocSize(size)
      requires SamePrefix(m0, m1, ptr, n - 1) && SamePrefix(m1, mem[..], ptr, k - 1)
      ensures SameBytes(m0, ptr, mem[..], ptr, Carried(size, 4 * n - 4))
    {
      hide SameBytes, AllocSize;
      WordsGiveBytes(m0, ptr, mem[..], Carried(size, 4 * n - 4));
    }

    lemma MovedBytes(m0: seq<int>, m1: seq<int>, ptr: int, r: int, oldSize: int, size: int)
      requires |m0| == |m1| == mem.Length && 0 <= ptr && SameBytes(m0, ptr, m1, ptr, oldSize) && 0 < size < SIZE_T
      requires r == NULL ==> mem[..] == m1
      requires 0 <= oldSize && ptr + (oldSize + 3) / 4 <= mem.Length
      requires r != NULL ==> 0 <= r && SameBytes(m1, ptr, mem[..], r, Min(size, oldSize))
      ensures r == NULL ==> SameBytes(m0, ptr, mem[..], ptr, oldSize)
      ensures r != NULL ==> SameBytes(m0, ptr, mem[..], r, Carried(size, oldSize))
    {
      forall j | 0 <= j < Carried(size, oldSize) && r > 0 && r + j / 4 < mem.Length
        ensures ByteAt(mem[..], r, j) == ByteAt(m0, ptr, j)
      {
        assert j / 4 < (oldSize + 3) / 4;
        assert ByteAt(m1, ptr, j) == ByteAt(m0, ptr, j);
      }
    }

    /**
     mm_realloc.  A null pointer mallocs and a zero size frees.  Otherwise a NULL result leaves the old
     block live with all of its bytes, and any other result is a live block of the new size that begins
     with the old block's bytes.  Every other live payload is kept on every path.
     */
    method Realloc(ptr: int, size: int) returns (r: int)
      requires Valid() && (ptr == NULL || ptr in Live()) && 0 <= size < SIZE_T
      modifies this, mem
      ensures Valid()
      ensures r == NULL ==> Live() == if size == 0 then old(Live()) - {ptr} else old(Live())
      ensures r != NULL ==> size != 0 && (r == ptr || r !in old(Live())) && Live() == old(Live()) - {ptr} + {r}
      ensures r != NULL ==> r in blk && 4 * blk[r].n >= AllocSize(size)
      ensures ptr != NULL ==> ptr in old(blk)
      ensures ptr != NULL && r != NULL ==>
        SameBytes(old(mem[..]), ptr, mem[..], r, Carried(size, 4 * old(blk)[ptr].n - 4))
      ensures ptr != NULL && size != 0 && AllocSize(size) <= 4 * old(Span(blk, ptr)) ==> r == ptr
      ensures ptr != NULL && size != 0 && old(AtEnd(blk, blockTail, ptr)) ==> r == ptr || r == NULL
      ensures ptr != NULL && r == ptr ==> 4 * blk[r].n < AllocSize(size) + MIN_BLOCK_SIZE
      ensures ptr != NULL ==> (r == NULL <==> size == 0 || old(CannotResize(ptr, AllocSize(size))))
      ensures r == NULL && size != 0 ==> old(NoRoom(AllocSize(size))) && blockTail == old(blockTail)
      ensures 4 * blockTail <= 4 * old(blockTail) + AllocSize(size)
      ensures ptr != NULL && r == NULL && size != 0 ==>
        && ptr in blk && blk[ptr].n >= old(blk)[ptr].n
        && SameBytes(old(mem[..]), ptr, mem[..], ptr, 4 * old(blk)[ptr].n - 4)
      ensures AllKept(old(blk), old(blockTail), old(mem[..]), blk, mem[..], {ptr})
    {
      hide AllKept, Rings, Tiled, Aligned, StoredBut, Coalesced, Classed, FreeListed, NoRoom, AllocSize, SameBytes;
      AllocSizeFits(size);
      if ptr == NULL {
        NullIsNotLive();
        ghost var m0, blk0, tail0 := mem[..], blk, blockTail;
        r := Malloc(size);
        KeptMore0(blk0, tail0, m0, blk, mem[..], ptr);
        return;
      }
      if size == 0 {
        Free(ptr);
        return NULL;
      }
      r := Resize(ptr, size);
    }

    // ---- the whole-heap searches that the lists stand in for ----

    /** implicit_find_best_fit: walk every block of the heap for the smallest that fits. */
    method ImplicitFindFit(allocSize: int) returns (best: int)
      requires Valid() && MIN_BLOCK_SIZE <= allocSize < SIZE_T
      ensures best == NULL <==> forall b :: IsFree(blk, b) ==> 4 * blk[b].n < allocSize
      ensures best != NULL ==> IsFree(blk, best) && 4 * blk[best].n >= allocSize
      ensures best != NULL ==> forall b :: IsFree(blk, b) && 4 * blk[b].n >= allocSize ==> blk[best].n <= blk[b].n
    {
      hide Rings, Aligned, StoredBut, Coalesced, Classed, FreeListed;
      best := NULL;
      var bestSize := SIZE_T - 1;
      var bp := StepNext(blockHead);
      while bp != blockTail
        invariant bp in blk && HEAD < bp
        invariant best == NULL ==> bestSize == SIZE_T - 1
        invariant best != NULL ==> IsFree(blk, best) && 4 * blk[best].n >= allocSize && bestSize == 4 * blk[best].n
        invariant forall b :: IsFree(blk, b) && b < bp && 4 * blk[b].n >= allocSize ==> best != NULL && bestSize <= 4 * blk[b].n
        decreases blockTail - bp
      {
        HeaderAt(bp);
        SizeInRange(bp);
        var size, _, alloc := Header(bp);
        if alloc == 0 && size >= allocSize && size < bestSize {
          best, bestSize := bp, size;
        }
        bp := StepNext(bp);
      }
    }

    /** next_block. */
    method StepNext(bp: int) returns (next: int)
      requires Valid() && bp in blk && bp != blockTail
      ensures next == Next(blk, bp) && next in blk && bp < next <= blockTail
      ensures forall b :: b in blk && b < next ==> b <= bp
    {
      hide Rings, Aligned, StoredBut, Coalesced, Classed, FreeListed;
      HeaderAt(bp);
      var size, _, _ := Header(bp);
      next := bp + size / 4;
      assert Next(blk, bp) in blk;
    }

    /** The segregated search finds a block of exactly the size that the whole-heap search finds. */
    method FitsAgree(allocSize: int) returns (a: int, b: int)
      requires Valid() && MIN_BLOCK_SIZE <= allocSize < SIZE_T
      ensures (a == NULL <==> b == NULL) && (a != NULL ==> a in blk && b in blk && blk[a].n == blk[b].n >= allocSize / 4)
    {
      a := FindFit(allocSize);
      b := ImplicitFindFit(allocSize);
    }

    /** mm_check_heap on one block: size, prologue, footer, coalescing and the neighbour's P bit. */
    method CheckBlock(bp: int) returns (ok: bool)
      requires Valid() && bp in blk && bp != blockTail
      ensures ok
    {
      hide Rings, Aligned, Classed, FreeListed;
      HeaderAt(bp);
      var size, prevAlloc, alloc := Header(bp);
      var next := StepNext(bp);
      HeaderAt(next);
      var _, nextPrevAlloc, nextAlloc := Header(next);
      if bp != blockHead {
        ok := size >= MIN_BLOCK_SIZE;
      } else {
        ok := size == 8 && alloc == 1;
      }
      if alloc == 0 {
        assert Tags(mem[..], blk, bp, 0);
        ok := ok && mem[bp + size / 4 - 2] == mem[bp - 1] && prevAlloc == 1 && nextAlloc == 1;
      }
      ok := ok && alloc == nextPrevAlloc;
    }

    /** What mm_check_heap asserts of one block, on the words themselves. */
    lemma BlockChecks(bp: int)
      requires Valid() && bp in blk && bp != blockTail
      ensures 1 <= bp <= mem.Length && mem[bp - 1] >= 0
      ensures var size := mem[bp - 1] / 8 * 8; var next := bp + size / 4;
        && 1 <= next <= mem.Length && 2 <= next
        && (if bp != blockHead then size >= 16 else size == 8 && mem[bp - 1] % 2 == 1)
        && (mem[bp - 1] % 2 == 0 ==> mem[next - 2] == mem[bp - 1] && mem[bp - 1] / 2 % 2 == 1 && mem[next - 1] % 2 == 1)
        && mem[bp - 1] % 2 == mem[next - 1] / 2 % 2
    {
      hide Rings, Aligned, Classed, FreeListed, Encode;
      HeaderAt(bp);
      var next := Next(blk, bp);
      assert next in blk;
      HeaderAt(next);
      assert Tags(mem[..], blk, bp, 0);
      TagBits(blk[bp]);
      TagBits(blk[next]);
      TagPositive(blk[bp]);
      SizeInRange(bp);
    }

    static lemma TagPositive(h: Hdr)
      requires h.n >= 0
      ensures Encode(h) >= 0
    {
    }

    /** What segregated_mm_check asserts of one node of list c, on the words themselves. */
    lemma NodeChecks(c: nat, fp: int)
      requires Valid() && c < NUM_LISTS && fp in fl && fl[fp].cls == c
      ensures 1 <= fp && fp + 1 < mem.Length && 0 <= mem[fp] && mem[fp] + 1 < mem.Length && 0 <= mem[fp + 1] < mem.Length
      ensures mem[mem[fp] + 1] == fp && mem[mem[fp + 1]] == fp
      ensures mem[fp - 1] % 2 == 0
      ensures var size := mem[fp - 1] / 8 * 8;
        (if c == 0 then 16 else 16 * Pow2(c - 1) + 1) <= size && (c < 9 ==> size <= 16 * Pow2(c))
    {
      hide Aligned, Coalesced, Tiled, ClassOf, Encode, Rings;
      LinksOf(mem[..], fl, stamp, c, fp);
      ListedSize(fp);
      assert IsFree(blk, fp);
      HeaderAt(fp);
      TagBits(blk[fp]);
      ClassBounds(4 * blk[fp].n, c);
    }

    /** segregated_mm_check on one list: class bounds, free status and mutual links of every node. */
    method CheckList(c: nat) returns (ok: bool)
      requires Valid() && c < NUM_LISTS
      ensures ok
    {
      hide Aligned, Coalesced, Tiled, ClassOf, MinSize, MaxSize;
      var h := ListHead(c);
      assert Linked(mem[..], fl, stamp, c, h);
      var fp := mem[h + 1];
      ok := true;
      while fp != h
        invariant Node(fl, c, fp) && ok
        decreases To(fl, fp) + 1
      {
        assert Linked(mem[..], fl, stamp, c, fp);
        assert fp in blk;
        HeaderAt(fp);
        var size, _, alloc := Header(fp);
        ListedSize(fp);
        ClassBounds(size, c);
        ok := ok && MinSize(c) <= size <= MaxSize(c) && alloc == 0 && mem[mem[fp] + 1] == fp && mem[mem[fp + 1]] == fp;
        fp := mem[fp + 1];
      }
    }

    lemma ListedSize(b: int)
      requires Consistent() && b in fl
      ensures b in blk && 16 <= 4 * blk[b].n < SIZE_T && fl[b].cls == ClassOf(4 * blk[b].n)
    {
      assert IsFree(blk, b);
      SizeInRange(b);
    }

    /** mm_check: every assertion of the heap checker and of the list checker holds in every valid state. */
    method MmCheck() returns (ok: bool)
      requires Valid()
      ensures ok
    {
      hide Rings, Aligned, Coalesced, Classed, FreeListed;
      ok := true;
      var bp := blockHead;
      while bp != blockTail
        invariant bp in blk && bp <= blockTail && ok
        decreases blockTail - bp
      {
        var good := CheckBlock(bp);
        ok := ok && good;
        bp := StepNext(bp);
      }
      HeaderAt(bp);
      var size, _, alloc := Header(bp);
      ok := ok && size == 0 && alloc == 1;
      var c := 0;
      while c < NUM_LISTS
        invariant 0 <= c <= NUM_LISTS && ok
      {
        var good := CheckList(c);
        ok := ok && good;
        c := c + 1;
      }
    }
  }
}
