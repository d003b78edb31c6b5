/** The bytes of a little-endian word array, as memcpy and memset see them. */
module PayloadBytes {

  function Pow256(k: nat): (p: int)
    requires k <= 4
    ensures p >= 1
  {
    if k == 0 then 1 else if k == 1 then 0x100 else if k == 2 then 0x1_0000
    else if k == 3 then 0x100_0000 else 0x1_0000_0000
  }

  function Min(a: int, b: int): int { if a < b then a else b }

  /** Byte k of word w. */
  function ByteOf(w: int, k: nat): int
    requires k < 4
  {
    (w / Pow256(k)) % 0x100
  }

  /** w with its low k bytes replaced by those of v. */
  function LowBytes(w: int, v: int, k: nat): int
    requires k <= 4
  {
    w - w % Pow256(k) + v % Pow256(k)
  }

  /** Byte j of the payload that starts at word b. */
  function ByteAt(m: seq<int>, b: int, j: nat): int
    requires 0 <= b && b + j / 4 < |m|
  {
    ByteOf(m[b + j / 4], j % 4)
  }

  /** The first n bytes at b' in m' are those at b in m. */
  ghost predicate SameBytes(m: seq<int>, b: int, m': seq<int>, b': int, n: int) {
    forall j :: 0 <= j < n && 0 <= b && 0 <= b' && b + j / 4 < |m| && b' + j / 4 < |m'| ==>
                  ByteAt(m', b', j) == ByteAt(m, b, j)
  }

  /** Adding a multiple of a higher power does not change a lower byte. */
  lemma HighPart(v: int, q: int, k: nat, j: nat)
    requires j < k <= 4 && j < 4
    ensures ByteOf(q * Pow256(k) + v, j) == ByteOf(v, j)
  {
    if j == 0 { HighByte(v, q * (if k == 1 then 1 else if k == 2 then 0x100 else if k == 3 then 0x1_0000 else 0x100_0000), 1); }
    else if j == 1 { HighByte(v, q * (if k == 2 then 1 else if k == 3 then 0x100 else 0x1_0000), 0x100); }
    else if j == 2 { HighByte(v, q * (if k == 3 then 1 else 0x100), 0x1_0000); }
    else { HighByte(v, q, 0x100_0000); }
  }

  lemma HighByte(v: int, q: int, d: int)
    requires d == 1 || d == 0x100 || d == 0x1_0000 || d == 0x100_0000
    ensures ((q * 0x100 * d + v) / d) % 0x100 == (v / d) % 0x100
  {
    assert (q * 0x100 * d + v) / d == q * 0x100 + v / d by {
      var e := v / d;
      assert q * 0x100 * d + v == d * (q * 0x100 + e) + v % d;
    }
  }

  lemma LowBytesKeep(w: int, v: int, k: nat, j: nat)
    requires j < k <= 4 && j < 4
    ensures ByteOf(LowBytes(w, v, k), j) == ByteOf(v, j)
  {
    var p := Pow256(k);
    var q := w / p - v / p;
    assert LowBytes(w, v, k) == q * p + v by {
      assert w == p * (w / p) + w % p && v == p * (v / p) + v % p;
      assert q * p == p * (w / p) - p * (v / p);
    }
    HighPart(v, q, k, j);
  }

  /** The first k words at b are the same in both. */
  ghost predicate SamePrefix(m: seq<int>, m': seq<int>, b: int, k: int) {
    |m| == |m'| && forall i :: b <= i < b + k && 0 <= i < |m| ==> m'[i] == m[i]
  }

  /** Equal words have equal bytes. */
  lemma WordsGiveBytes(m: seq<int>, b: int, m': seq<int>, n: int)
    requires |m| == |m'| && 0 <= b && forall i :: b <= i < b + (n + 3) / 4 && i < |m| ==> m'[i] == m[i]
    ensures SameBytes(m, b, m', b, n)
  {
    forall j | 0 <= j < n && b + j / 4 < |m| ensures ByteAt(m', b, j) == ByteAt(m, b, j) {
      assert j / 4 < (n + 3) / 4;
    }
  }

  /** A memcpy of whole words and then the low bytes of the last one copies every byte. */
  lemma CopiedBytes(m: seq<int>, src: int, m': seq<int>, dst: int, n: int)
    requires 0 <= n && 0 <= dst && dst + (n + 3) / 4 <= |m'| && 0 <= src && src + (n + 3) / 4 <= |m| && |m| == |m'|
    requires forall i :: dst <= i < dst + n / 4 ==> m'[i] == m[src + (i - dst)]
    requires n % 4 != 0 ==> m'[dst + n / 4] == LowBytes(m[dst + n / 4], m[src + n / 4], n % 4)
    ensures SameBytes(m, src, m', dst, n)
  {
    forall j | 0 <= j < n ensures ByteAt(m', dst, j) == ByteAt(m, src, j) {
      if j / 4 < n / 4 {
        assert m'[dst + j / 4] == m[src + j / 4];
      } else {
        assert j / 4 == n / 4 && j % 4 < n % 4;
        LowBytesKeep(m[dst + n / 4], m[src + n / 4], n % 4, j % 4);
      }
    }
  }

  lemma SameBytesTrans(m: seq<int>, b: int, m1: seq<int>, b1: int, m2: seq<int>, b2: int, n: int, n1: int)
    requires |m| == |m1| == |m2| && 0 <= b && 0 <= b1 && 0 <= b2 && 0 <= n1 <= n
    requires b + (n + 3) / 4 <= |m| && b1 + (n + 3) / 4 <= |m| && b2 + (n + 3) / 4 <= |m|
    requires SameBytes(m, b, m1, b1, n) && SameBytes(m1, b1, m2, b2, n1)
    ensures SameBytes(m, b, m2, b2, n1)
  {
    forall j | 0 <= j < n1 ensures ByteAt(m2, b2, j) == ByteAt(m, b, j) {
      assert j / 4 < (n + 3) / 4;
      assert ByteAt(m1, b1, j) == ByteAt(m, b, j);
    }
  }

  /** The n bytes at b all have the value v. */
  ghost predicate Filled(m: seq<int>, b: int, n: int, v: int) {
    forall j :: 0 <= j < n && 0 <= b && b + j / 4 < |m| ==> ByteAt(m, b, j) == v
  }

  /** The word whose four bytes are all v. */
  function Splat(v: int): int { v * 0x101_0101 }

  lemma SplatByte(v: int, j: nat)
    requires 0 <= v < 0x100 && j < 4
    ensures ByteOf(Splat(v), j) == v
  {
    if j == 0 { HighByte(v, v * 0x1_0101, 1); }
    else if j == 1 { SplitByte(Splat(v), v * 0x101, v, v, 0x100); }
    else if j == 2 { SplitByte(Splat(v), v, v, v * 0x101, 0x1_0000); }
    else { SplitByte(Splat(v), 0, v, v * 0x1_0101, 0x100_0000); }
  }

  lemma SplitByte(w: int, hi: int, v: int, lo: int, d: int)
    requires d == 0x100 || d == 0x1_0000 || d == 0x100_0000
    requires 0 <= v < 0x100 && 0 <= lo < d && w == hi * 0x100 * d + v * d + lo
    ensures (w / d) % 0x100 == v
  {
    assert w / d == hi * 0x100 + v by {
      assert w == d * (hi * 0x100 + v) + lo;
    }
  }

  lemma FilledBytes(m: seq<int>, m': seq<int>, b: int, n: int, v: int)
    requires |m| == |m'| && 0 <= b && 0 <= n && b + (n + 3) / 4 <= |m| && 0 <= v < 0x100
    requires forall i :: b <= i < b + n / 4 ==> m'[i] == Splat(v)
    requires n % 4 != 0 ==> m'[b + n / 4] == LowBytes(m[b + n / 4], Splat(v), n % 4)
    ensures Filled(m', b, n, v)
  {
    hide Splat;
    forall j | 0 <= j < n ensures ByteAt(m', b, j) == v {
      SplatByte(v, j % 4);
      if j / 4 < n / 4 {
        assert m'[b + j / 4] == Splat(v);
      } else {
        assert j / 4 == n / 4 && j % 4 < n % 4;
        LowBytesKeep(m[b + n / 4], Splat(v), n % 4, j % 4);
      }
    }
  }

  lemma FilledSame(m: seq<int>, b: int, m': seq<int>, b': int, n: int, k: int, v: int)
    requires Filled(m, b, n, v) && SameBytes(m, b, m', b', k) && 0 <= b && 0 <= b'
    requires b + (Min(n, k) + 3) / 4 <= |m| && b' + (Min(n, k) + 3) / 4 <= |m'|
    ensures Filled(m', b', Min(n, k), v)
  {
    forall j | 0 <= j < Min(n, k) ensures ByteAt(m', b', j) == v {
      assert j / 4 < (Min(n, k) + 3) / 4;
      assert ByteAt(m, b, j) == v;
    }
  }
}
