/** Byte-string keys, compared as bytes.Compare does. */
module ByteKeys {

  type Bytes = s: seq<int> | forall i :: 0 <= i < |s| ==> 0 <= s[i] < 256

  /** bytes.Compare: -1, 0 or 1, lexicographically. */
  function Compare(a: Bytes, b: Bytes): int {
    if a == [] then (if b == [] then 0 else -1)
    else if b == [] then 1
    else if a[0] < b[0] then -1
    else if a[0] > b[0] then 1
    else Compare(a[1..], b[1..])
  }

  /** A number in [0, 1) for every key, that orders keys as Compare does. */
  ghost function Rank(a: Bytes): real {
    if a == [] then 0.0 else ((a[0] + 1) as real + Rank(a[1..])) / 257.0
  }

  lemma {:induction false} RankRange(a: Bytes)
    ensures 0.0 <= Rank(a) < 1.0
    ensures a != [] ==> 0.0 < Rank(a)
    ensures a != [] ==> 257.0 * Rank(a) == (a[0] + 1) as real + Rank(a[1..])
  {
    if a != [] {
      RankRange(a[1..]);
    }
  }

  /** Comparing keys is comparing their ranks. */
  lemma {:induction false} CompareRank(a: Bytes, b: Bytes)
    ensures Compare(a, b) < 0 <==> Rank(a) < Rank(b)
    ensures Compare(a, b) == 0 <==> Rank(a) == Rank(b)
    ensures Compare(a, b) == 0 <==> a == b
  {
    RankRange(a);
    RankRange(b);
    if a != [] && b != [] {
      RankRange(a[1..]);
      RankRange(b[1..]);
      if a[0] == b[0] {
        CompareRank(a[1..], b[1..]);
        assert a == [a[0]] + a[1..] && b == [b[0]] + b[1..];
      } else if a[0] < b[0] {
        assert (a[0] + 1) as real + 1.0 <= (b[0] + 1) as real;
      } else {
        assert (b[0] + 1) as real + 1.0 <= (a[0] + 1) as real;
      }
    }
  }

  /** a is less than b: it is a proper prefix, or the first byte that differs is smaller. */
  ghost predicate LessAt(a: Bytes, b: Bytes, n: nat) {
    n <= |a| && n < |b| && a[..n] == b[..n] && (n == |a| || a[n] < b[n])
  }

  lemma LessInTails(a: Bytes, b: Bytes, n: nat)
    requires a != [] && b != [] && a[0] == b[0]
    ensures LessAt(a[1..], b[1..], n) <==> LessAt(a, b, n + 1)
  {
    if n < |a| && n < |b| {
      assert a[..n + 1] == [a[0]] + a[1..][..n] && b[..n + 1] == [b[0]] + b[1..][..n];
    }
  }

  lemma LessHeads(a: Bytes, b: Bytes, n: nat)
    requires LessAt(a, b, n)
    ensures b != [] && (a == [] || a[0] < b[0] || (n > 0 && a[0] == b[0]))
  {
    if n > 0 {
      assert a[..n][0] == b[..n][0];
    }
  }

  lemma {:induction false} CompareLess(a: Bytes, b: Bytes)
    ensures Compare(a, b) < 0 <==> exists n: nat :: LessAt(a, b, n)
  {
    if a == [] || b == [] || a[0] != b[0] {
      assert b != [] && (a == [] || a[0] < b[0]) ==> LessAt(a, b, 0);
      forall n: nat | LessAt(a, b, n) ensures b != [] && (a == [] || a[0] < b[0]) {
        LessHeads(a, b, n);
      }
    } else {
      CompareLess(a[1..], b[1..]);
      if Compare(a, b) < 0 {
        var n: nat :| LessAt(a[1..], b[1..], n);
        LessInTails(a, b, n);
      }
      if n: nat :| LessAt(a, b, n) {
        LessInTails(a, b, n - 1);
      }
    }
  }

  lemma {:induction false} CompareMirrored(a: Bytes, b: Bytes)
    ensures Compare(a, b) == -Compare(b, a) && -1 <= Compare(a, b) <= 1
  {
    if a != [] && b != [] && a[0] == b[0] {
      CompareMirrored(a[1..], b[1..]);
    }
  }

  lemma LessSpelledOut(a: Bytes, b: Bytes)
    ensures Compare(a, b) < 0 <==>
            (exists n: nat :: n <= |a| && n < |b| && a[..n] == b[..n] && (n == |a| || a[n] < b[n]))
  {
    hide Compare, Rank;
    CompareLess(a, b);
    if n: nat :| LessAt(a, b, n) {
      assert n <= |a| && n < |b| && a[..n] == b[..n] && (n == |a| || a[n] < b[n]);
    }
    forall n: nat | n <= |a| && n < |b| && a[..n] == b[..n] && (n == |a| || a[n] < b[n]) ensures LessAt(a, b, n) {
    }
  }

  /** The order is the lexicographic one: a prefix comes first, otherwise the first differing byte decides. */
  lemma Lexicographic(a: Bytes, b: Bytes)
    ensures Compare(a, b) < 0 <==>
            (exists n: nat :: n <= |a| && n < |b| && a[..n] == b[..n] && (n == |a| || a[n] < b[n]))
    ensures Compare(a, b) > 0 <==>
            (exists n: nat :: n <= |b| && n < |a| && b[..n] == a[..n] && (n == |b| || b[n] < a[n]))
    ensures Compare(a, b) == 0 <==> a == b
    ensures -1 <= Compare(a, b) <= 1
  {
    hide *;
    LessSpelledOut(a, b);
    LessSpelledOut(b, a);
    CompareMirrored(a, b);
    CompareRank(a, b);
  }
}
