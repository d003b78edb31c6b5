/** Request sizes, 32-bit rounding, and the ten size classes of the segregated free lists. */
module SizeClasses {

  const SIZE_T := 0x1_0000_0000        // size_t arithmetic is modulo this
  const MIN_BLOCK_SIZE := 16
  const CLASSES := 10

  /** align: round up to a multiple of 8, wrapping as size_t does. */
  function Align(size: int): int
  {
    var t := (size + 7) % SIZE_T;
    t - t % 8
  }

  lemma Words(bytes: int)
    requires bytes % 8 == 0 && bytes >= 16
    ensures 4 * (bytes / 4) == bytes && (bytes / 4) % 2 == 0 && bytes / 4 >= 4
  {
    var q := bytes / 8;
    assert bytes == 8 * q && bytes / 4 == 2 * q;
  }

  /** Whatever is asked for, what align returns is a multiple of 8. */
  lemma AlignIsMultiple(size: int)
    ensures Align(size) % 8 == 0 && 0 <= Align(size) < SIZE_T
  {
    var t := (size + 7) % SIZE_T;
    assert t - t % 8 == 8 * (t / 8);
  }

  lemma AlignMultiple(size: int)
    requires 0 <= size < SIZE_T && size % 8 == 0
    ensures Align(size) == size
  {
    var q := size / 8;
    assert size + 7 == 8 * q + 7 && size + 7 < SIZE_T;
    assert (8 * q + 7) % 8 == 7;
  }

  /** The block size chosen for a request of size bytes. */
  function AllocSize(size: int): int
  {
    var t := Align((size + 4) % SIZE_T);
    if t < MIN_BLOCK_SIZE then MIN_BLOCK_SIZE else t
  }

  /**
   The chosen block holds the request and its header exactly when the rounding does not wrap;
   past that point every request is given the minimum block.
   */
  lemma AllocSizeFits(size: int)
    requires 0 <= size < SIZE_T
    ensures AllocSize(size) % 8 == 0 && MIN_BLOCK_SIZE <= AllocSize(size) < SIZE_T
    ensures AllocSize(size) >= size + 4 <==> size <= SIZE_T - 12
    ensures size > SIZE_T - 12 ==> AllocSize(size) == MIN_BLOCK_SIZE
    ensures size <= SIZE_T - 12 ==> AllocSize(size) < size + 4 + 8 || AllocSize(size) == MIN_BLOCK_SIZE
  {
  }

  /** A wrapped request: four bytes short of 2^32 is answered with a 16-byte block. */
  lemma HugeRequestWraps()
    ensures AllocSize(SIZE_T - 4) == 16
  {
    AllocSizeFits(SIZE_T - 4);
  }

  // ---- size classes ----

  function Pow2(k: nat): (r: nat)
    ensures r >= 1
  {
    if k == 0 then 1 else 2 * Pow2(k - 1)
  }

  /** The bounds printed and checked for list index. */
  function MinSize(index: nat): int {
    if index != 0 then MIN_BLOCK_SIZE * Pow2(index - 1) + 1 else MIN_BLOCK_SIZE
  }
  function MaxSize(index: nat): int {
    if index < CLASSES - 1 then MIN_BLOCK_SIZE * Pow2(index) else SIZE_T - 1
  }

  /** How often s can be halved before it is 0. */
  function Halvings(s: nat): nat { if s == 0 then 0 else 1 + Halvings(s / 2) }

  function ClassOf(size: int): (c: nat)
    requires size >= 1
    ensures c < CLASSES
  {
    var h := Halvings((size - 1) / MIN_BLOCK_SIZE);
    if h < CLASSES - 1 then h else CLASSES - 1
  }

  lemma {:induction false} HalvingsBounds(s: nat)
    requires s > 0
    ensures Halvings(s) >= 1 && Pow2(Halvings(s) - 1) <= s < Pow2(Halvings(s))
  {
    if s > 1 {
      HalvingsBounds(s / 2);
      assert Halvings(s) == 1 + Halvings(s / 2);
      assert Pow2(Halvings(s)) == 2 * Pow2(Halvings(s / 2));
    } else {
      assert Halvings(1) == 1 + Halvings(0);
    }
  }

  lemma {:induction false} Pow2Monotone(i: nat, j: nat)
    requires i <= j
    ensures Pow2(i) <= Pow2(j)
    decreases j
  {
    if i < j {
      Pow2Monotone(i, j - 1);
    }
  }

  /** The class index is monotone in the size. */
  lemma {:induction false} HalvingsMonotone(s: nat, t: nat)
    requires s <= t
    ensures Halvings(s) <= Halvings(t)
  {
    if s > 0 {
      HalvingsMonotone(s / 2, t / 2);
    }
  }

  lemma ClassMonotone(s: int, t: int)
    requires 1 <= s <= t
    ensures ClassOf(s) <= ClassOf(t)
  {
    HalvingsMonotone((s - 1) / MIN_BLOCK_SIZE, (t - 1) / MIN_BLOCK_SIZE);
  }

  /** A number can be halved more than i times exactly when it is at least 2^i. */
  lemma HalvingsAbove(s: nat, i: nat)
    ensures Halvings(s) > i <==> s >= Pow2(i)
  {
    hide Halvings, Pow2;
    if s == 0 {
      assert Halvings(0) == 0 by { HalvingsZero(); }
    } else {
      HalvingsBounds(s);
      if Halvings(s) > i {
        Pow2Monotone(i, Halvings(s) - 1);
      } else {
        Pow2Monotone(Halvings(s), i);
      }
    }
  }

  lemma HalvingsZero()
    ensures Halvings(0) == 0
  {
  }

  lemma Sixteenths(size: int, x: nat)
    requires size >= 1
    ensures size > 16 * x <==> (size - 1) / 16 >= x
  {
  }

  /** A size lies within the bounds of list c exactly when c is its class index. */
  lemma ClassBounds(size: int, c: nat)
    requires MIN_BLOCK_SIZE <= size < SIZE_T && c < CLASSES
    ensures MinSize(c) <= size <= MaxSize(c) <==> ClassOf(size) == c
  {
    hide Halvings, Pow2;
    var s := (size - 1) / MIN_BLOCK_SIZE;
    if c > 0 {
      HalvingsAbove(s, c - 1);
      Sixteenths(size, Pow2(c - 1));
    }
    if c < CLASSES - 1 {
      HalvingsAbove(s, c);
      Sixteenths(size, Pow2(c));
    }
  }

  /** The ten classes: 16, 17 to 32, 33 to 64, and so on by powers of two, and all from 4097 on. */
  lemma ClassTable(size: int)
    requires 16 <= size < SIZE_T
    ensures ClassOf(size) == if size <= 16 then 0 else if size <= 32 then 1 else if size <= 64 then 2
                             else if size <= 128 then 3 else if size <= 256 then 4 else if size <= 512 then 5
                             else if size <= 1024 then 6 else if size <= 2048 then 7 else if size <= 4096 then 8 else 9
  {
    hide Halvings, ClassOf;
    var c := if size <= 16 then 0 else if size <= 32 then 1 else if size <= 64 then 2
             else if size <= 128 then 3 else if size <= 256 then 4 else if size <= 512 then 5
             else if size <= 1024 then 6 else if size <= 2048 then 7 else if size <= 4096 then 8 else 9;
    PowersOfTwo();
    hide Pow2;
    ClassBounds(size, c);
  }

  lemma PowersOfTwo()
    ensures Pow2(0) == 1 && Pow2(1) == 2 && Pow2(2) == 4 && Pow2(3) == 8 && Pow2(4) == 16 && Pow2(5) == 32
    ensures Pow2(6) == 64 && Pow2(7) == 128 && Pow2(8) == 256
  {
    assert Pow2(1) == 2 * Pow2(0);
    assert Pow2(2) == 2 * Pow2(1);
    assert Pow2(3) == 2 * Pow2(2);
    assert Pow2(4) == 2 * Pow2(3);
    assert Pow2(5) == 2 * Pow2(4);
    assert Pow2(6) == 2 * Pow2(5);
    assert Pow2(7) == 2 * Pow2(6);
    assert Pow2(8) == 2 * Pow2(7);
  }

  /** segregated_free_list_lower_bound: the list whose bounds hold a block of this size. */
  method LowerBound(size: int) returns (index: nat)
    requires MIN_BLOCK_SIZE <= size < SIZE_T
    ensures index == ClassOf(size) && index < CLASSES
    ensures MinSize(index) <= size <= MaxSize(index)
  {
    var i := 0;
    var s := (size - 1) / MIN_BLOCK_SIZE;
    while s != 0
      invariant 0 <= s && 0 <= i
      invariant i + Halvings(s) == Halvings((size - 1) / MIN_BLOCK_SIZE)
      decreases s
    {
      i, s := i + 1, s / 2;
    }
    index := if i < CLASSES - 1 then i else CLASSES - 1;
    ClassBounds(size, index);
  }
}
