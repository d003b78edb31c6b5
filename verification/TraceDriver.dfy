/** The malloc-lab driver's correctness check (eval_mm_valid), run against the allocator. */
module TraceDriver {
  import opened HeapBlocks
  import opened SizeClasses
  import opened HeapState
  import opened PayloadBytes
  import opened Allocator
  import FreeLists

  datatype Op = Alloc(index: nat, size: int) | Realloc(index: nat, size: int) | Free(index: nat)

  /** What the driver reports; Refused is a null pointer from the allocator, the others are its bugs. */
  datatype Verdict = Passed | Refused | Misaligned | OutsideHeap | Overlaps | DataLost

  datatype Range = Range(lo: int, size: int)

  /** A trace the driver accepts: sizes are ints, and only blocks in use are resized or freed. */
  ghost predicate TraceOk(ops: seq<Op>, used: set<nat>)
  {
    ops == [] ||
    match ops[0]
    case Alloc(index, size) => 0 <= size < INT_LIMIT && TraceOk(ops[1..], used + {index})
    case Realloc(index, size) => 0 <= size < INT_LIMIT && index in used && TraceOk(ops[1..], used)
    case Free(index) => index in used && TraceOk(ops[1..], used - {index})
  }

  /** The recorded range fits in a live payload. */
  ghost predicate Covered(blk: Blocks, tail: int, r: Range) {
    IsLive(blk, tail, r.lo) && 0 < r.size <= 4 * blk[r.lo].n - 4
  }

  /** The range list: live, sized and never twice the same block. */
  ghost predicate RangesOk(blk: Blocks, tail: int, ranges: seq<Range>) {
    && (forall r :: r in ranges ==> Covered(blk, tail, r))
    && (forall i, j :: 0 <= i < j < |ranges| ==> ranges[i].lo != ranges[j].lo)
  }

  /** Every block in use has its range on the list and still holds the bytes the driver wrote. */
  ghost predicate BlocksOk(m: seq<int>, ranges: seq<Range>, blocks: map<nat, Range>) {
    && (forall k :: k in blocks ==> blocks[k] in ranges && Filled(m, blocks[k].lo, blocks[k].size, k % 0x100))
    && (forall k, l :: k in blocks && l in blocks && k != l ==> blocks[k].lo != blocks[l].lo)
  }

  ghost predicate Tracking(h: Heap, ranges: seq<Range>, blocks: map<nat, Range>)
    reads h, h.mem
  {
    h.Valid() && RangesOk(h.blk, h.blockTail, ranges) && BlocksOk(h.mem[..], ranges, blocks)
  }

  /** Ranges and bytes survive any heap operation that keeps the live blocks. */
  lemma Survive(blk: Blocks, tail: int, m: seq<int>, blk': Blocks, tail': int, m': seq<int>, ex: set<int>,
                ranges: seq<Range>, blocks: map<nat, Range>)
    requires |m| == |m'| && AllKept(blk, tail, m, blk', m', ex) && LiveSet(blk, tail) - ex <= LiveSet(blk', tail')
    requires RangesOk(blk, tail, ranges) && BlocksOk(m, ranges, blocks) && Tiled(blk, tail)
    ensures forall r :: r in ranges && r.lo !in ex ==> Covered(blk', tail', r)
    ensures forall k :: k in blocks && blocks[k].lo !in ex ==> Filled(m', blocks[k].lo, blocks[k].size, k % 0x100)
  {
    hide Tiled, Filled;
    forall r | r in ranges && r.lo !in ex ensures Covered(blk', tail', r) {
      assert Covered(blk, tail, r) && r.lo in LiveSet(blk, tail);
      assert Kept(blk, m, blk', m', r.lo) && r.lo in LiveSet(blk', tail');
    }
    forall k | k in blocks && blocks[k].lo !in ex ensures Filled(m', blocks[k].lo, blocks[k].size, k % 0x100) {
      var r := blocks[k];
      assert Covered(blk, tail, r) && r.lo in LiveSet(blk, tail);
      FilledKept(blk, tail, m, blk', m', r, k % 0x100);
    }
  }

  lemma FilledKept(blk: Blocks, tail: int, m: seq<int>, blk': Blocks, m': seq<int>, r: Range, v: int)
    requires |m| == |m'| && Covered(blk, tail, r) && Kept(blk, m, blk', m', r.lo) && Tiled(blk, tail)
    requires Filled(m, r.lo, r.size, v)
    ensures Filled(m', r.lo, r.size, v)
  {
    forall j | 0 <= j < r.size && r.lo + j / 4 < |m| ensures ByteAt(m', r.lo, j) == v {
      assert ByteAt(m, r.lo, j) == v;
    }
  }

  /** The two ends of the new payload, lo to lo + size - 1, tested against a recorded one, in byte addresses. */
  predicate EndInside(r: Range, lo: int, size: int) {
    (4 * r.lo <= lo <= 4 * r.lo + r.size - 1) || (4 * r.lo <= lo + size - 1 <= 4 * r.lo + r.size - 1)
  }

  /** add_range, for any byte address and size: which of the three tests fails first, or a new record. */
  method AddRange(h: Heap, ranges: seq<Range>, lo: int, size: int) returns (v: Verdict, ranges': seq<Range>)
    requires size > 0
    ensures v == Misaligned <==> lo % 8 != 0
    ensures v == OutsideHeap <==> lo % 8 == 0 && (lo < 4 * FreeLists.BASE || lo + size - 1 > h.brk - 1)
    ensures v == Overlaps <==> lo % 8 == 0 && 4 * FreeLists.BASE <= lo && lo + size - 1 <= h.brk - 1 &&
                               exists i :: 0 <= i < |ranges| && EndInside(ranges[i], lo, size)
    ensures v in {Misaligned, OutsideHeap, Overlaps, Passed}
    ensures ranges' == if v == Passed then [Range(lo / 4, size)] + ranges else ranges
  {
    var hi := lo + size - 1;
    ranges' := ranges;
    if lo % 8 != 0 {
      return Misaligned, ranges;
    }
    if lo < 4 * FreeLists.BASE || lo > h.brk - 1 || hi < 4 * FreeLists.BASE || hi > h.brk - 1 {
      return OutsideHeap, ranges;
    }
    var i := 0;
    while i < |ranges|
      invariant 0 <= i <= |ranges| && forall j :: 0 <= j < i ==> !EndInside(ranges[j], lo, size)
    {
      var rlo, rhi := 4 * ranges[i].lo, 4 * ranges[i].lo + ranges[i].size - 1;
      if (rlo <= lo <= rhi) || (rlo <= hi <= rhi) {
        return Overlaps, ranges;
      }
      i := i + 1;
    }
    return Passed, [Range(lo / 4, size)] + ranges;
  }

  /** A payload inside a live block that is not yet recorded passes the three tests. */
  lemma LiveRangePasses(h: Heap, ranges: seq<Range>, p: int, size: int)
    requires h.Valid() && RangesOk(h.blk, h.blockTail, ranges) && Covered(h.blk, h.blockTail, Range(p, size))
    requires forall r :: r in ranges ==> r.lo != p
    ensures (4 * p) % 8 == 0 && 4 * p / 4 == p && 4 * FreeLists.BASE <= 4 * p && 4 * p + size - 1 <= h.brk - 1
    ensures forall i :: 0 <= i < |ranges| ==> !EndInside(ranges[i], 4 * p, size)
    ensures RangesOk(h.blk, h.blockTail, [Range(p, size)] + ranges)
  {
    hide FreeLists.Rings, StoredBut, Coalesced, Classed, FreeListed;
    PayloadsDisjoint(h.blk, h.blockTail, p, p, p);
    forall i | 0 <= i < |ranges| ensures !EndInside(ranges[i], 4 * p, size) {
      assert ranges[i] in ranges && Covered(h.blk, h.blockTail, ranges[i]);
      OutsideBlock(h.blk, p, ranges[i].lo);
    }
  }

  /** remove_range: drop the first record that starts at lo, if there is one. */
  method RemoveRange(ranges: seq<Range>, lo: int) returns (ranges': seq<Range>)
    ensures (forall i :: 0 <= i < |ranges| ==> ranges[i].lo != lo) ==> ranges' == ranges
    ensures forall i :: 0 <= i < |ranges| && ranges[i].lo == lo && (forall j :: 0 <= j < i ==> ranges[j].lo != lo) ==>
              ranges' == ranges[..i] + ranges[i + 1..]
  {
    var i := 0;
    while i < |ranges|
      invariant 0 <= i <= |ranges|
      invariant forall j :: 0 <= j < i ==> ranges[j].lo != lo
    {
      if ranges[i].lo == lo {
        return ranges[..i] + ranges[i + 1..];
      }
      i := i + 1;
    }
    return ranges;
  }

  /** The first record that starts at lo, or the number of records. */
  function FirstAt(ranges: seq<Range>, lo: int): (i: nat)
    ensures i <= |ranges| && (i < |ranges| ==> ranges[i].lo == lo) && forall j :: 0 <= j < i ==> ranges[j].lo != lo
  {
    if ranges == [] || ranges[0].lo == lo then 0
    else
      assert forall j :: 0 < j < |ranges| ==> ranges[j] == ranges[1..][j - 1];
      1 + FirstAt(ranges[1..], lo)
  }

  /** On a list that records no block twice, dropping the first leaves exactly the others. */
  lemma DropFirst(ranges: seq<Range>, ranges': seq<Range>, lo: int)
    requires forall i, j :: 0 <= i < j < |ranges| ==> ranges[i].lo != ranges[j].lo
    requires (forall i :: 0 <= i < |ranges| ==> ranges[i].lo != lo) ==> ranges' == ranges
    requires forall i :: 0 <= i < |ranges| && ranges[i].lo == lo && (forall j :: 0 <= j < i ==> ranges[j].lo != lo) ==>
              ranges' == ranges[..i] + ranges[i + 1..]
    ensures forall r :: r in ranges' <==> r in ranges && r.lo != lo
    ensures forall i, j :: 0 <= i < j < |ranges'| ==> ranges'[i].lo != ranges'[j].lo
  {
    var i := FirstAt(ranges, lo);
    if i < |ranges| {
      forall r ensures r in ranges' <==> r in ranges && r.lo != lo {
        if r in ranges && r.lo != lo {
          var j :| 0 <= j < |ranges| && ranges[j] == r;
          assert j < i ==> ranges'[j] == r;
          assert j > i ==> ranges'[j - 1] == r;
        }
      }
    }
  }

  /** Why the allocator may answer with NULL: nothing is asked for, or the break cannot move that far. */
  ghost predicate Refusable(h: Heap, size: int)
    requires 0 <= size < SIZE_T
    reads h
  {
    size == 0 || h.NoRoom(AllocSize(size))
  }

  ghost predicate SomeRefusable(h: Heap, trace: seq<Op>)
    reads h
  {
    exists i :: 0 <= i < |trace| && !trace[i].Free? && 0 <= trace[i].size < INT_LIMIT && Refusable(h, trace[i].size)
  }

  /** A malloc request of the trace. */
  method DoAlloc(h: Heap, ranges: seq<Range>, blocks: map<nat, Range>, index: nat, size: int)
    returns (v: Verdict, ranges': seq<Range>, blocks': map<nat, Range>)
    requires Tracking(h, ranges, blocks) && 0 <= size < INT_LIMIT
    modifies h, h.mem
    ensures v == Passed || (v == Refused && Refusable(h, size))
    ensures v == Passed ==> Tracking(h, ranges', blocks') && blocks'.Keys == blocks.Keys + {index}
    ensures h.Valid() && 4 * h.blockTail <= 4 * old(h.blockTail) + AllocSize(size)
    ensures v == Refused && size != 0 ==> h.blockTail == old(h.blockTail)
  {
    hide FreeLists.Rings, StoredBut, Coalesced, Classed, FreeListed, AllKept, AllocSize, Filled, Aligned, Tiled;
    ranges', blocks' := ranges, blocks;
    ghost var blk0, tail0, m0, live0 := h.blk, h.blockTail, h.mem[..], h.Live();
    var p := h.Malloc(size);
    if p == NULL {
      return Refused, ranges, blocks;
    }
    ghost var m1 := h.mem[..];
    AllocSizeFits(size);
    Survive(blk0, tail0, m0, h.blk, h.blockTail, m1, {}, ranges, blocks);
    assert p in h.Live();
    forall r | r in ranges ensures r.lo != p {
      assert Covered(blk0, tail0, r) && r.lo in live0;
    }
    LiveRangePasses(h, ranges, p, size);
    v, ranges' := AddRange(h, ranges, 4 * p, size);
    h.FillPayload(p, index % 0x100, size);
    FilledOthers(h, m1, p, ranges, blocks);
    blocks' := blocks[index := Range(p, size)];
  }

  /** Filling block p leaves the bytes of the other recorded blocks alone. */
  lemma FilledOthers(h: Heap, m1: seq<int>, p: int, ranges: seq<Range>, blocks: map<nat, Range>)
    requires |m1| == h.mem.Length && AllKept(h.blk, h.blockTail, m1, h.blk, h.mem[..], {p}) && Tiled(h.blk, h.blockTail)
    requires forall k :: k in blocks ==> Covered(h.blk, h.blockTail, blocks[k])
    requires forall k :: k in blocks ==> blocks[k].lo != p && Filled(m1, blocks[k].lo, blocks[k].size, k % 0x100)
    ensures forall k :: k in blocks ==> Filled(h.mem[..], blocks[k].lo, blocks[k].size, k % 0x100)
  {
    hide Tiled, Filled;
    forall k | k in blocks ensures Filled(h.mem[..], blocks[k].lo, blocks[k].size, k % 0x100) {
      assert Kept(h.blk, m1, h.blk, h.mem[..], blocks[k].lo);
      FilledKept(h.blk, h.blockTail, m1, h.blk, h.mem[..], blocks[k], k % 0x100);
    }
  }

  /** A byte read through a char pointer, which is signed here: 0x80 and above are negative. */
  function SignedChar(b: int): int { if b >= 0x80 then b - 0x100 else b }

  /** The driver's comparison of the first n bytes with v, for any memory; it stops at the first difference. */
  method CheckBytes(h: Heap, p: int, n: int, v: int) returns (same: bool)
    requires 0 <= p && p + (n + 3) / 4 <= h.mem.Length
    ensures same <==> forall j :: 0 <= j < n && p + j / 4 < h.mem.Length ==> SignedChar(ByteAt(h.mem[..], p, j)) == v
  {
    var j := 0;
    while j < n
      invariant 0 <= j && forall i :: 0 <= i < j && p + i / 4 < h.mem.Length ==> SignedChar(ByteAt(h.mem[..], p, i)) == v
    {
      if SignedChar(ByteOf(h.mem[p + j / 4], j % 4)) != v {
        assert SignedChar(ByteAt(h.mem[..], p, j)) != v;
        return false;
      }
      j := j + 1;
    }
    return true;
  }

  /**
   On a block that holds the byte v throughout, the comparison fails exactly for the bytes from 0x80 on: it
   reads signed chars and compares them with an int from 0 to 255.
   */
  lemma HighBytesDiffer(m: seq<int>, p: int, n: int, v: int)
    requires 0 <= p && p + (n + 3) / 4 <= |m| && Filled(m, p, n, v) && 0 <= v < 0x100
    ensures (forall j :: 0 <= j < n && p + j / 4 < |m| ==> SignedChar(ByteAt(m, p, j)) == v) <==> n <= 0 || v < 0x80
    ensures SignedChar(v) == if v < 0x80 then v else v - 0x100
  {
    if n > 0 {
      assert ByteAt(m, p, 0) == v;
    }
  }

  /** A resize after which the driver misreads the bytes it wrote. */
  predicate Misread(op: Op) { op.Realloc? && op.index % 0x100 >= 0x80 }

  method Unrecord(ranges: seq<Range>, lo: int) returns (ranges': seq<Range>)
    requires forall i, j :: 0 <= i < j < |ranges| ==> ranges[i].lo != ranges[j].lo
    ensures forall r :: r in ranges' <==> r in ranges && r.lo != lo
    ensures forall i, j :: 0 <= i < j < |ranges'| ==> ranges'[i].lo != ranges'[j].lo
  {
    ranges' := RemoveRange(ranges, lo);
    DropFirst(ranges, ranges', lo);
  }

  /** Drops the record of the old place and adds that of the new one. */
  method Rerecord(h: Heap, ranges: seq<Range>, oldP: int, p: int, size: int) returns (v: Verdict, ranges': seq<Range>)
    requires h.Valid() && Covered(h.blk, h.blockTail, Range(p, size))
    requires forall i, j :: 0 <= i < j < |ranges| ==> ranges[i].lo != ranges[j].lo
    requires forall r :: r in ranges && r.lo != oldP ==> r.lo != p && Covered(h.blk, h.blockTail, r)
    ensures v == Passed && RangesOk(h.blk, h.blockTail, ranges') && ranges' != [] && ranges'[0] == Range(p, size)
    ensures forall r :: r in ranges && r.lo != oldP ==> r in ranges'
  {
    ranges' := Unrecord(ranges, oldP);
    LiveRangePasses(h, ranges', p, size);
    v, ranges' := AddRange(h, ranges', 4 * p, size);
  }

  /** A realloc request of the trace. */
  method DoRealloc(h: Heap, ranges: seq<Range>, blocks: map<nat, Range>, index: nat, size: int)
    returns (v: Verdict, ranges': seq<Range>, blocks': map<nat, Range>)
    requires Tracking(h, ranges, blocks) && index in blocks && 0 <= size < INT_LIMIT
    modifies h, h.mem
    ensures v == Passed || v == DataLost || (v == Refused && Refusable(h, size))
    ensures v == DataLost <==> v != Refused && Misread(Realloc(index, size))
    ensures v == DataLost ==> ranges' != []
    ensures v == DataLost ==> Filled(h.mem[..], ranges'[0].lo, Min(size, blocks[index].size), index % 0x100)
    ensures v == Passed ==> Tracking(h, ranges', blocks') && blocks'.Keys == blocks.Keys
    ensures h.Valid() && 4 * h.blockTail <= 4 * old(h.blockTail) + AllocSize(size)
    ensures v == Refused && size != 0 ==> h.blockTail == old(h.blockTail)
  {
    hide FreeLists.Rings, StoredBut, Coalesced, Classed, FreeListed, AllKept, AllocSize, Filled, Aligned, Tiled, SameBytes;
    ranges', blocks' := ranges, blocks;
    ghost var blk0, tail0, m0, live0 := h.blk, h.blockTail, h.mem[..], h.Live();
    var old_p, oldSize := blocks[index].lo, blocks[index].size;
    assert Covered(blk0, tail0, blocks[index]) && old_p in live0;
    h.NullIsNotLive();
    var p := h.Realloc(old_p, size);
    if p == NULL {
      return Refused, ranges, blocks;
    }
    ghost var m1 := h.mem[..];
    AllocSizeFits(size);
    Survive(blk0, tail0, m0, h.blk, h.blockTail, m1, {old_p}, ranges, blocks);
    assert p in h.Live();
    forall r | r in ranges && r.lo != old_p ensures r.lo != p && Covered(h.blk, h.blockTail, r) {
      assert Covered(blk0, tail0, r) && r.lo in live0;
    }
    v, ranges' := Rerecord(h, ranges, old_p, p, size);
    var n := if size < oldSize then size else oldSize;
    ResizedBytes(h, m0, blk0, tail0, old_p, p, oldSize, size, index % 0x100);
    HighBytesDiffer(h.mem[..], p, n, index % 0x100);
    var same := CheckBytes(h, p, n, index % 0x100);
    if !same {
      return DataLost, ranges', blocks;
    }
    h.FillPayload(p, index % 0x100, size);
    TrackAgain(h, m1, ranges, ranges', blocks, index, Range(p, size));
    blocks' := blocks[index := Range(p, size)];
  }

  /** After a resize every other block is tracked as before, and this one at its new place. */
  lemma TrackAgain(h: Heap, m1: seq<int>, ranges: seq<Range>, ranges': seq<Range>, blocks: map<nat, Range>, index: nat, r: Range)
    requires h.Valid() && |m1| == h.mem.Length && AllKept(h.blk, h.blockTail, m1, h.blk, h.mem[..], {r.lo})
    requires index in blocks && BlocksOk0(ranges, blocks) && RangesOk(h.blk, h.blockTail, ranges')
    requires forall q :: q in ranges && q.lo != blocks[index].lo ==> q in ranges' && q.lo != r.lo
    requires r in ranges' && Filled(h.mem[..], r.lo, r.size, index % 0x100)
    requires forall k :: k in blocks && k != index ==> Filled(m1, blocks[k].lo, blocks[k].size, k % 0x100)
    ensures Tracking(h, ranges', blocks[index := r]) && blocks[index := r].Keys == blocks.Keys
  {
    hide FreeLists.Rings, StoredBut, Coalesced, Classed, FreeListed, AllKept, Filled, Aligned, Tiled;
    var others, blocks' := blocks - {index}, blocks[index := r];
    forall k | k in others
      ensures others[k] == blocks[k] && blocks[k] in ranges' && blocks[k].lo != r.lo && Covered(h.blk, h.blockTail, blocks[k])
    {
    }
    FilledOthers(h, m1, r.lo, ranges', others);
    forall k | k in blocks' && k != index
      ensures blocks'[k] in ranges' && blocks'[k].lo != r.lo && Filled(h.mem[..], blocks'[k].lo, blocks'[k].size, k % 0x100)
    {
      assert k in others && others[k] == blocks[k];
    }
    assert blocks'.Keys == blocks.Keys;
  }

  /** Every block in use has its range on the list, and no two have the same. */
  ghost predicate BlocksOk0(ranges: seq<Range>, blocks: map<nat, Range>) {
    && (forall k :: k in blocks ==> blocks[k] in ranges)
    && (forall k, l :: k in blocks && l in blocks && k != l ==> blocks[k].lo != blocks[l].lo)
  }

  /** What realloc carries over includes everything the driver will look at. */
  lemma ResizedBytes(h: Heap, m0: seq<int>, blk0: Blocks, tail0: int, oldp: int, p: int, oldSize: int, size: int, v: int)
    requires h.Valid() && |m0| == h.mem.Length && Tiled(blk0, tail0) && tail0 <= |m0| && 0 < size < INT_LIMIT
    requires Covered(blk0, tail0, Range(oldp, oldSize)) && Filled(m0, oldp, oldSize, v)
    requires IsLive(h.blk, h.blockTail, p) && 4 * h.blk[p].n >= AllocSize(size)
    requires SameBytes(m0, oldp, h.mem[..], p, h.Carried(size, 4 * blk0[oldp].n - 4))
    ensures var n := if size < oldSize then size else oldSize;
      0 <= p && p + (n + 3) / 4 <= h.mem.Length && Filled(h.mem[..], p, n, v)
  {
    hide FreeLists.Rings, StoredBut, Coalesced, Classed, FreeListed, Filled, SameBytes, Aligned, AllocSize;
    AllocSizeFits(size);
    assert Next(blk0, oldp) in blk0 && Next(h.blk, p) in h.blk;
    FilledSame(m0, oldp, h.mem[..], p, oldSize, h.Carried(size, 4 * blk0[oldp].n - 4), v);
  }

  /** A free request of the trace. */
  method DoFree(h: Heap, ranges: seq<Range>, blocks: map<nat, Range>, index: nat)
    returns (ranges': seq<Range>, blocks': map<nat, Range>)
    requires Tracking(h, ranges, blocks) && index in blocks
    modifies h, h.mem
    ensures Tracking(h, ranges', blocks') && blocks'.Keys == blocks.Keys - {index} && h.blockTail == old(h.blockTail)
  {
    hide FreeLists.Rings, StoredBut, Coalesced, Classed, FreeListed, AllKept, Filled, Aligned, Tiled;
    ghost var blk0, tail0, m0, live0 := h.blk, h.blockTail, h.mem[..], h.Live();
    var p := blocks[index].lo;
    assert Covered(blk0, tail0, blocks[index]) && p in live0;
    ranges' := Unrecord(ranges, p);
    h.Free(p);
    Survive(blk0, tail0, m0, h.blk, h.blockTail, h.mem[..], {p}, ranges, blocks);
    blocks' := blocks - {index};
  }

  /** The bytes a trace can make the break move, at most. */
  ghost function Demand(ops: seq<Op>): int {
    if ops == [] then 0
    else Demand(ops[..|ops| - 1]) + DemandOf(ops[|ops| - 1])
  }

  lemma DemandSoFar(ops: seq<Op>, i: nat)
    requires i < |ops|
    ensures Demand(ops[..i + 1]) == Demand(ops[..i]) + DemandOf(ops[i])
  {
    assert ops[..i + 1][..i] == ops[..i];
  }

  /** Demand only grows. */
  lemma {:induction false} DemandGrows(ops: seq<Op>, i: nat)
    requires i <= |ops| && forall k :: 0 <= k < |ops| && !ops[k].Free? ==> 0 <= ops[k].size < INT_LIMIT
    ensures Demand(ops[..i]) <= Demand(ops)
    decreases |ops| - i
  {
    hide AllocSize;
    if i == |ops| {
      assert ops[..i] == ops;
    } else {
      DemandSoFar(ops, i);
      if !ops[i].Free? {
        AllocSizeFits(ops[i].size);
      }
      DemandGrows(ops, i + 1);
    }
  }

  lemma {:induction false} TraceSizes(ops: seq<Op>, used: set<nat>, i: nat)
    requires TraceOk(ops, used) && i < |ops| && !ops[i].Free?
    ensures 0 <= ops[i].size < INT_LIMIT
    decreases i
  {
    if i > 0 {
      match ops[0]
      case Alloc(index, _) => TraceSizes(ops[1..], used + {index}, i - 1);
      case Realloc(_, _) => TraceSizes(ops[1..], used, i - 1);
      case Free(index) => TraceSizes(ops[1..], used - {index}, i - 1);
    }
  }

  /** A refusal has a reason: an empty request, or more demand than the heap can hold. */
  lemma RefusalMeans(h: Heap, trace: seq<Op>, i: nat)
    requires TraceOk(trace, {}) && i < |trace| && !trace[i].Free? && 0 <= trace[i].size < INT_LIMIT
    requires h.Valid() && h.brk - 4 * FreeLists.BASE <= 16 + Demand(trace[..i]) && Refusable(h, trace[i].size)
    requires h.max < INT_LIMIT
    ensures trace[i].size == 0 || 16 + Demand(trace) > h.max
  {
    hide AllocSize, FreeLists.Rings, StoredBut, Coalesced, Classed, FreeListed, Shape;
    forall k | 0 <= k < |trace| && !trace[k].Free? ensures 0 <= trace[k].size < INT_LIMIT {
      TraceSizes(trace, {}, k);
    }
    DemandSoFar(trace, i);
    DemandGrows(trace, i + 1);
    DemandGrows(trace, i);
    AllocSizeFits(trace[i].size);
    DemandNonNegative(trace[..i]);
  }

  lemma {:induction false} DemandNonNegative(ops: seq<Op>)
    requires forall k :: 0 <= k < |ops| && !ops[k].Free? ==> 0 <= ops[k].size < INT_LIMIT
    ensures Demand(ops) >= 0
  {
    hide AllocSize;
    if ops != [] {
      if !ops[|ops| - 1].Free? {
        AllocSizeFits(ops[|ops| - 1].size);
      }
      DemandNonNegative(ops[..|ops| - 1]);
    }
  }

  /** The operation is one the driver can be given when the blocks in used are. */
  ghost predicate OpOk(op: Op, used: set<nat>) {
    match op
    case Alloc(_, size) => 0 <= size < INT_LIMIT
    case Realloc(index, size) => 0 <= size < INT_LIMIT && index in used
    case Free(index) => index in used
  }

  ghost function UsedAfter(op: Op, used: set<nat>): set<nat> {
    match op
    case Alloc(index, _) => used + {index}
    case Realloc(_, _) => used
    case Free(index) => used - {index}
  }

  /** The bytes one operation can make the break move, at most. */
  ghost function DemandOf(op: Op): int { if op.Free? then 0 else AllocSize(op.size) }

  lemma TraceHead(trace: seq<Op>, i: nat, used: set<nat>)
    requires i < |trace| && TraceOk(trace[i..], used)
    ensures OpOk(trace[i], used) && TraceOk(trace[i + 1..], UsedAfter(trace[i], used))
  {
    assert trace[i..][0] == trace[i] && trace[i..][1..] == trace[i + 1..];
  }

  lemma NothingTracked(h: Heap)
    requires h.Valid()
    ensures Tracking(h, [], map[])
  {
  }

  /** One operation of the trace. */
  method DoOne(h: Heap, ranges: seq<Range>, blocks: map<nat, Range>, op: Op)
    returns (v: Verdict, ranges': seq<Range>, blocks': map<nat, Range>)
    requires Tracking(h, ranges, blocks) && OpOk(op, blocks.Keys)
    modifies h, h.mem
    ensures v == Passed || v == DataLost || (v == Refused && !op.Free? && Refusable(h, op.size))
    ensures v == DataLost <==> v != Refused && Misread(op)
    ensures v == Passed ==> Tracking(h, ranges', blocks') && blocks'.Keys == UsedAfter(op, blocks.Keys)
    ensures h.Valid() && 4 * h.blockTail <= 4 * old(h.blockTail) + DemandOf(op)
    ensures v == Refused && op.size != 0 ==> h.blockTail == old(h.blockTail)
  {
    hide FreeLists.Rings, StoredBut, Coalesced, Classed, FreeListed, Filled, Shape, Refusable, AllocSize, RangesOk, BlocksOk;
    v := Passed;
    match op {
      case Alloc(index, size) =>
        v, ranges', blocks' := DoAlloc(h, ranges, blocks, index, size);
      case Realloc(index, size) =>
        v, ranges', blocks' := DoRealloc(h, ranges, blocks, index, size);
      case Free(index) =>
        ranges', blocks' := DoFree(h, ranges, blocks, index);
    }
  }

  /**
   eval_mm_valid, and how many operations it completes.  The driver never sees a misaligned, out-of-heap or
   overlapping payload.  It reports lost data exactly when it comes, unrefused, to a resize whose index has
   bit 7 set, where nothing is lost; and it is refused only when asked for 0 bytes or for more than the heap
   can hold.
   */
  method EvalValid(h: Heap, trace: seq<Op>) returns (v: Verdict, done: nat)
    requires h.brk == 4 * FreeLists.BASE && h.max < INT_LIMIT && h.mem.Length == FreeLists.BASE + h.max / 4
    requires TraceOk(trace, {})
    modifies h, h.mem
    ensures v == Passed || v == Refused || v == DataLost
    ensures v == DataLost <==> v != Refused && exists i :: 0 <= i < |trace| && Misread(trace[i])
    ensures done <= |trace| && forall i :: 0 <= i < done ==> !Misread(trace[i])
    ensures v == Passed ==> done == |trace| && h.Valid()
    ensures v == DataLost ==> done < |trace| && Misread(trace[done]) && h.Valid()
    ensures v == Refused ==> h.max < 16 || SomeRefusable(h, trace)
    ensures v == Refused ==> 16 + Demand(trace) > h.max || (done < |trace| && !trace[done].Free? && trace[done].size == 0)
  {
    hide FreeLists.Rings, StoredBut, Coalesced, Classed, FreeListed, Filled, Shape, Refusable, AllocSize, Demand, DemandOf,
         TraceOk, OpOk, RangesOk, BlocksOk;
    done := 0;
    forall k | 0 <= k < |trace| && !trace[k].Free? ensures 0 <= trace[k].size < INT_LIMIT {
      TraceSizes(trace, {}, k);
    }
    var ret := h.Init();
    if ret < 0 {
      DemandNonNegative(trace);
      return Refused, 0;
    }
    var ranges: seq<Range>, blocks: map<nat, Range> := [], map[];
    v := Passed;
    assert trace[0..] == trace && blocks.Keys == {};
    NothingTracked(h);
    DemandNonNegative(trace[..0]);
    while done < |trace|
      invariant 0 <= done <= |trace| && v == Passed && forall i :: 0 <= i < done ==> !Misread(trace[i])
      invariant Tracking(h, ranges, blocks) && TraceOk(trace[done..], blocks.Keys)
      invariant h.brk - 4 * FreeLists.BASE <= 16 + Demand(trace[..done])
    {
      TraceHead(trace, done, blocks.Keys);
      DemandSoFar(trace, done);
      v, ranges, blocks := DoOne(h, ranges, blocks, trace[done]);
      if v != Passed {
        if v == Refused && trace[done].size != 0 {
          RefusalMeans(h, trace, done);
        }
        return;
      }
      done := done + 1;
    }
  }

  /** Lost data is reported of a heap that has lost none: index 128, allocated and resized to the same size. */
  method HighIndexMisread(h: Heap) returns (v: Verdict)
    requires h.brk == 4 * FreeLists.BASE && 48 <= h.max < INT_LIMIT && h.mem.Length == FreeLists.BASE + h.max / 4
    modifies h, h.mem
    ensures v == DataLost && h.Valid()
  {
    var trace := [Alloc(128, 8), Realloc(128, 8)];
    assert trace[1..] == [Realloc(128, 8)] && trace[1..][1..] == [];
    assert trace[..2] == trace && trace[..0] == [];
    DemandSoFar(trace, 0);
    DemandSoFar(trace, 1);
    assert AllocSize(8) == 16;
    assert Misread(trace[1]);
    var done;
    v, done := EvalValid(h, trace);
  }
}
