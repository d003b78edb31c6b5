/**
 The allocator's heap as the code sees it (tag words) and as it is meant to be seen
 (a map from block address to block record), and the four ways the block map changes.

 An address is the index of a 32-bit word: byte address = 4 * index.  A block pointer is the
 address of its payload, so the header of block b is word b - 1 and, when the block is n words
 long, its footer is word b + n - 2 and the next block pointer is b + n.
 */
module HeapBlocks {

  /** What a tag word records: block length in words, previous-allocated bit, allocated bit. */
  datatype Hdr = Hdr(n: int, prev: bool, alloc: bool)

  type Blocks = map<int, Hdr>

  const HEAD := 24   // address of the prologue block (block_head)

  function Bit(b: bool): int { if b then 1 else 0 }

  /** The tag word: size in bytes, the P bit and the A bit. */
  function Encode(h: Hdr): int {
    4 * h.n + 2 * Bit(h.prev) + Bit(h.alloc)
  }

  // ---- the bit-field accessors of the C code, on words ----

  function GetSize(w: int): int { w - w % 8 }
  function GetPrevAlloc(w: int): int { (w / 2) % 2 }
  function GetAlloc(w: int): int { w % 2 }
  function Meta(size: int, prevAlloc: int, alloc: int): int { size + 2 * prevAlloc + alloc }
  function SetSize(w: int, size: int): int { w % 8 + size }
  function SetPrevAlloc(w: int, p: int): int { w - 2 * GetPrevAlloc(w) + 2 * p }
  function SetAlloc(w: int, a: int): int { w - GetAlloc(w) + a }

  lemma Low1(w: int, q: int, r: int)
    requires w == 2 * q + r && 0 <= r < 2
    ensures w % 2 == r && w / 2 == q
  {
  }

  lemma Low3(w: int, q: int, r: int)
    requires w == 8 * q + r && 0 <= r < 8
    ensures w % 8 == r
  {
  }

  lemma LowBits(w: int, q: int, p: int, a: int)
    requires w == 8 * q + 2 * p + a && 0 <= p <= 1 && 0 <= a <= 1
    ensures w % 8 == 2 * p + a && w % 2 == a && (w / 2) % 2 == p
  {
    Low3(w, q, 2 * p + a);
    Low1(w, 4 * q + p, a);
    Low1(4 * q + p, 2 * q, p);
  }

  /** Every accessor and updater of the C code agrees with the record the word encodes. */
  lemma TagWord(h: Hdr, k: int, bit: bool)
    requires h.n % 2 == 0
    ensures GetSize(Encode(h)) == 4 * h.n
    ensures GetPrevAlloc(Encode(h)) == Bit(h.prev)
    ensures GetAlloc(Encode(h)) == Bit(h.alloc)
    ensures SetSize(Encode(h), 4 * k) == Encode(h.(n := k))
    ensures SetPrevAlloc(Encode(h), Bit(bit)) == Encode(h.(prev := bit))
    ensures SetAlloc(Encode(h), Bit(bit)) == Encode(h.(alloc := bit))
    ensures Meta(4 * k, Bit(h.prev), Bit(bit)) == Encode(Hdr(k, h.prev, bit))
  {
    LowBits(Encode(h), h.n / 2, Bit(h.prev), Bit(h.alloc));
  }

  /** The word itself: bit 0 is the A bit, bit 1 the P bit, and the size is what stands above bit 2. */
  lemma TagBits(h: Hdr)
    requires h.n % 2 == 0
    ensures var w := Encode(h);
      w / 8 * 8 == 4 * h.n && (w % 2 == 1 <==> h.alloc) && (w / 2 % 2 == 1 <==> h.prev)
  {
    LowBits(Encode(h), h.n / 2, Bit(h.prev), Bit(h.alloc));
    var w := Encode(h);
    assert w == w / 8 * 8 + w % 8;
  }

  // ---- well-formed block maps ----

  function Next(blk: Blocks, b: int): int
    requires b in blk
  {
    b + blk[b].n
  }

  /** Block bounds: prologue and epilogue in place, all other blocks at least four words long. */
  ghost predicate Sized(blk: Blocks, tail: int) {
    && HEAD in blk && tail in blk && HEAD < tail
    && blk[HEAD] == Hdr(2, true, true)
    && blk[tail].n == 0 && blk[tail].alloc
    && forall b :: b in blk ==> HEAD <= b <= tail && (b != HEAD && b != tail ==> blk[b].n >= 4)
  }

  /** Every block pointer and every length is a multiple of 8 bytes. */
  ghost predicate Aligned(blk: Blocks) {
    forall b :: b in blk ==> b % 2 == 0 && blk[b].n % 2 == 0
  }

  /** No block starts inside another. */
  ghost predicate Apart(blk: Blocks) {
    forall a, b :: a in blk && b in blk && a < b ==> a + blk[a].n <= b
  }

  /** Each block is followed by the block that starts where it ends, whose P bit is this one's A bit. */
  ghost predicate Chained(blk: Blocks, tail: int) {
    forall b {:trigger Next(blk, b)} :: b in blk && b != tail ==>
      Next(blk, b) in blk && blk[Next(blk, b)].prev == blk[b].alloc
  }

  /** The blocks tile the heap exactly from the prologue to the epilogue. */
  ghost predicate Tiled(blk: Blocks, tail: int) {
    Sized(blk, tail) && Apart(blk) && Chained(blk, tail)
  }

  ghost predicate Shape(blk: Blocks, tail: int) {
    Tiled(blk, tail) && Aligned(blk)
  }

  ghost predicate IsFree(blk: Blocks, b: int) { b in blk && !blk[b].alloc }

  /** A payload the user owns: allocated, and neither the prologue nor the epilogue. */
  ghost predicate IsLive(blk: Blocks, tail: int, b: int) {
    b in blk && blk[b].alloc && b != HEAD && b != tail
  }

  /** Every free block comes after an allocated one: no two neighbours are free. */
  ghost predicate Coalesced(blk: Blocks) {
    forall b :: IsFree(blk, b) ==> blk[b].prev
  }

  /** As Coalesced, except that block x may have free neighbours. */
  ghost predicate CoalescedBut(blk: Blocks, x: int)
    requires x in blk
  {
    forall b :: IsFree(blk, b) && b != x && b != Next(blk, x) ==> blk[b].prev
  }

  // ---- how the memory words store a block map ----

  /** The header of b is in place and, when b is free and not y, so is its footer. */
  ghost predicate Tags(m: seq<int>, blk: Blocks, b: int, y: int)
    requires b in blk
  {
    && 1 <= b <= |m| && m[b - 1] == Encode(blk[b])
    && (!blk[b].alloc && b != y ==> 2 <= b + blk[b].n <= |m| + 1 && m[b + blk[b].n - 2] == Encode(blk[b]))
  }

  /** Every tag is in place, except perhaps the footer of y. */
  ghost predicate StoredBut(m: seq<int>, blk: Blocks, tail: int, y: int) {
    HEAD <= tail <= |m| && forall b {:trigger Tags(m, blk, b, y)} :: b in blk ==> Tags(m, blk, b, y)
  }

  ghost predicate Stored(m: seq<int>, blk: Blocks, tail: int) { StoredBut(m, blk, tail, 0) }

  // ---- the four ways a block map changes ----

  /** Mark block b and tell its successor. */
  ghost function Mark(blk: Blocks, b: int, a: bool): Blocks
    requires b in blk && Next(blk, b) in blk && blk[b].n != 0
  {
    blk[b := blk[b].(alloc := a)][Next(blk, b) := blk[Next(blk, b)].(prev := a)]
  }

  /** Cut block b after k words; the rest becomes a block of the same status. */
  ghost function Split(blk: Blocks, b: int, k: int): Blocks
    requires b in blk
  {
    blk[b := blk[b].(n := k)][b + k := Hdr(blk[b].n - k, blk[b].alloc, blk[b].alloc)]
  }

  /** Let block b swallow its successor x, whatever the successor's status. */
  ghost function Merge(blk: Blocks, b: int, x: int): Blocks
    requires b in blk && x in blk && Next(blk, x) in blk
  {
    (blk - {x})[b := blk[b].(n := blk[b].n + blk[x].n)]
    [Next(blk, x) := blk[Next(blk, x)].(prev := blk[b].alloc)]
  }

  /** Turn the epilogue into a free block of k words with a new epilogue behind it. */
  ghost function Grow(blk: Blocks, tail: int, k: int): Blocks
    requires tail in blk
  {
    blk[tail := Hdr(k, blk[tail].prev, false)][tail + k := Hdr(0, false, true)]
  }

  lemma MarkChained(blk: Blocks, tail: int, b: int, a: bool)
    requires Tiled(blk, tail) && b in blk && b != tail && b != HEAD
    ensures Next(blk, b) in blk && Chained(Mark(blk, b, a), tail)
  {
    assert Next(blk, b) in blk;
    var blk' := Mark(blk, b, a);
    forall c | c in blk' && c != tail
      ensures Next(blk', c) in blk' && blk'[Next(blk', c)].prev == blk'[c].alloc
    {
      assert Next(blk, c) in blk && Next(blk', c) == Next(blk, c);
      assert c != b ==> Next(blk, c) != Next(blk, b);
    }
  }

  lemma MarkShape(blk: Blocks, tail: int, b: int, a: bool)
    requires Shape(blk, tail) && b in blk && b != tail && b != HEAD
    ensures Next(blk, b) in blk && Shape(Mark(blk, b, a), tail)
    ensures Mark(blk, b, a).Keys == blk.Keys
  {
    MarkChained(blk, tail, b, a);
  }

  lemma SplitApart(blk: Blocks, tail: int, b: int, k: int)
    requires Tiled(blk, tail) && b in blk && b != tail && b != HEAD && 4 <= k <= blk[b].n - 4
    ensures b + k !in blk && Next(blk, b) in blk
    ensures Apart(Split(blk, b, k)) && Sized(Split(blk, b, k), tail)
  {
    assert Next(blk, b) in blk;
  }

  lemma SplitShape(blk: Blocks, tail: int, b: int, k: int)
    requires Shape(blk, tail) && b in blk && b != tail && b != HEAD
    requires k % 2 == 0 && 4 <= k <= blk[b].n - 4
    ensures Shape(Split(blk, b, k), tail)
    ensures b + k !in blk && Next(blk, b) in blk
  {
    hide Sized, Apart, Chained, Aligned, Split;
    SplitApart(blk, tail, b, k);
    SplitChained(blk, tail, b, k);
    SplitAligned(blk, b, k);
  }

  lemma EvenSum(a: int, b: int)
    requires a % 2 == 0 && b % 2 == 0
    ensures (a + b) % 2 == 0 && (a - b) % 2 == 0
  {
  }

  lemma SplitAligned(blk: Blocks, b: int, k: int)
    requires Aligned(blk) && b in blk && k % 2 == 0
    ensures Aligned(Split(blk, b, k))
  {
    EvenSum(b, k);
    EvenSum(blk[b].n, k);
  }

  lemma MergeAligned(blk: Blocks, b: int, x: int)
    requires Aligned(blk) && b in blk && x in blk && Next(blk, x) in blk
    ensures Aligned(Merge(blk, b, x))
  {
    EvenSum(blk[b].n, blk[x].n);
  }

  lemma SplitChained(blk: Blocks, tail: int, b: int, k: int)
    requires Tiled(blk, tail) && b in blk && b != tail && b != HEAD && 4 <= k <= blk[b].n - 4
    requires b + k !in blk && Next(blk, b) in blk
    ensures Chained(Split(blk, b, k), tail)
  {
    var blk' := Split(blk, b, k);
    forall c | c in blk' && c != tail
      ensures Next(blk', c) in blk' && blk'[Next(blk', c)].prev == blk'[c].alloc
    {
      if c == b + k {
        assert Next(blk', c) == Next(blk, b);
      } else if c == b {
        assert Next(blk', c) == b + k;
      } else {
        assert Next(blk, c) in blk && Next(blk', c) == Next(blk, c);
      }
    }
  }

  lemma MergeApart(blk: Blocks, tail: int, b: int, x: int)
    requires Tiled(blk, tail) && b in blk && b != tail && b != HEAD && x == Next(blk, b) && x != tail
    ensures x in blk && Next(blk, x) in blk && b < x < Next(blk, x)
    ensures Apart(Merge(blk, b, x)) && Sized(Merge(blk, b, x), tail)
    ensures Merge(blk, b, x).Keys == blk.Keys - {x}
  {
    assert x in blk && Next(blk, x) in blk;
  }

  lemma MergeChained(blk: Blocks, tail: int, b: int, x: int)
    requires Tiled(blk, tail) && b in blk && b != tail && b != HEAD && x == Next(blk, b) && x != tail
    requires x in blk && Next(blk, x) in blk && b < x < Next(blk, x)
    ensures Chained(Merge(blk, b, x), tail)
  {
    var blk' := Merge(blk, b, x);
    forall c | c in blk' && c != tail
      ensures Next(blk', c) in blk' && blk'[Next(blk', c)].prev == blk'[c].alloc
    {
      if c == b {
        assert Next(blk', c) == Next(blk, x);
      } else {
        assert Next(blk, c) in blk && Next(blk', c) == Next(blk, c);
        assert Next(blk, c) != x && Next(blk, c) != Next(blk, x);
      }
    }
  }

  lemma MergeShape(blk: Blocks, tail: int, b: int)
    requires Shape(blk, tail) && b in blk && b != tail && b != HEAD && Next(blk, b) != tail
    ensures Next(blk, b) in blk && Next(blk, Next(blk, b)) in blk
    ensures Shape(Merge(blk, b, Next(blk, b)), tail)
    ensures Merge(blk, b, Next(blk, b)).Keys == blk.Keys - {Next(blk, b)}
  {
    hide Sized, Apart, Chained, Aligned, Merge;
    var x := Next(blk, b);
    MergeApart(blk, tail, b, x);
    MergeChained(blk, tail, b, x);
    MergeAligned(blk, b, x);
  }

  lemma GrowTiled(blk: Blocks, tail: int, k: int)
    requires Tiled(blk, tail) && k >= 4
    ensures Tiled(Grow(blk, tail, k), tail + k)
    ensures tail + k !in blk
  {
    var blk' := Grow(blk, tail, k);
    forall c | c in blk' && c != tail + k
      ensures Next(blk', c) in blk' && blk'[Next(blk', c)].prev == blk'[c].alloc
    {
      if c != tail {
        assert Next(blk, c) in blk && Next(blk', c) == Next(blk, c);
      } else {
        assert Next(blk', c) == tail + k;
      }
    }
  }

  lemma GrowShape(blk: Blocks, tail: int, k: int)
    requires Shape(blk, tail) && k % 2 == 0 && k >= 4
    ensures Shape(Grow(blk, tail, k), tail + k)
    ensures tail + k !in blk
  {
    GrowTiled(blk, tail, k);
    assert (tail + k) % 2 == 0;
  }

  /** Every block but the prologue has a predecessor; a cleared P bit says that it is free. */
  lemma Predecessor(blk: Blocks, tail: int, b: int) returns (p: int)
    requires Shape(blk, tail) && b in blk && b != HEAD
    ensures p in blk && p != tail && p < b && Next(blk, p) == b && blk[p].alloc == blk[b].prev
  {
    p := HEAD;
    while Next(blk, p) != b
      invariant p in blk && p != tail && p < b
      decreases b - p
    {
      assert Next(blk, p) in blk;
      p := Next(blk, p);
    }
  }

  lemma SameEnd(blk: Blocks, tail: int, a: int, b: int)
    requires Tiled(blk, tail) && a in blk && b in blk && a != tail && b != tail && Next(blk, a) == Next(blk, b)
    ensures a == b
  {
  }

  // ---- live payloads ----

  /** The live block b keeps its place, its length and every word of its payload. */
  ghost predicate Kept(blk: Blocks, m: seq<int>, blk': Blocks, m': seq<int>, b: int)
    requires b in blk && |m| == |m'|
  {
    && b in blk' && blk'[b].alloc && blk'[b].n == blk[b].n
    && forall i :: b <= i < b + blk[b].n - 1 && 0 <= i < |m| ==> m'[i] == m[i]
  }

  /** Every live block except those in ex is kept. */
  ghost predicate AllKept(blk: Blocks, tail: int, m: seq<int>, blk': Blocks, m': seq<int>, ex: set<int>)
    requires |m| == |m'|
  {
    forall b :: IsLive(blk, tail, b) && b !in ex ==> Kept(blk, m, blk', m', b)
  }

  /** Distinct live payloads are disjoint, aligned to 8 bytes and inside the heap. */
  lemma PayloadsDisjoint(blk: Blocks, tail: int, a: int, b: int, i: int)
    requires Shape(blk, tail) && IsLive(blk, tail, a) && IsLive(blk, tail, b)
    ensures (4 * a) % 8 == 0 && HEAD + 2 <= a && a + blk[a].n - 1 <= tail - 1
    ensures a <= i < a + blk[a].n - 1 && b <= i < b + blk[b].n - 1 ==> a == b
  {
    assert Next(blk, a) in blk;
    assert Next(blk, HEAD) in blk;
  }
}
