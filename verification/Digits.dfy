/** Little-endian numbers in base 2^30: the value of a digit sequence, and how it reacts to edits. */
module Digits {

  const B: int := 0x4000_0000     // BASE = 2^30

  function Pow(k: nat): (p: int)
    ensures p >= 1
  {
    if k == 0 then 1 else B * Pow(k - 1)
  }

  ghost predicate Digit(d: int) { 0 <= d < B }

  ghost predicate AllDigits(s: seq<int>) { forall i :: 0 <= i < |s| ==> Digit(s[i]) }

  /** The number written by the digits s, least significant first. */
  ghost function Mag(s: seq<int>): int {
    if s == [] then 0 else s[0] + B * Mag(s[1..])
  }

  lemma MagNil()
    ensures Mag([]) == 0 && Pow(0) == 1
  {
  }

  lemma PowSucc(k: nat)
    ensures Pow(k + 1) == B * Pow(k)
  {
  }

  lemma MulLe(a: int, b: int, c: int)
    requires a <= b && c >= 0
    ensures a * c <= b * c
  {
  }

  lemma {:induction false} PowAdd(i: nat, j: nat)
    ensures Pow(i + j) == Pow(i) * Pow(j)
  {
    if i > 0 {
      PowAdd(i - 1, j);
      Assoc(B, Pow(i - 1), Pow(j));
    }
  }

  lemma Assoc(a: int, b: int, c: int)
    ensures (a * b) * c == a * (b * c)
  {
  }

  lemma {:induction false} PowLess(i: nat, j: nat)
    requires i < j
    ensures B * Pow(i) <= Pow(j)
  {
    if i < j - 1 {
      PowLess(i, j - 1);
    }
  }

  lemma {:induction false} MagAppend(s: seq<int>, d: int)
    ensures Mag(s + [d]) == Mag(s) + d * Pow(|s|)
  {
    if s == [] {
      assert s + [d] == [d] && Mag([d][1..]) == 0;
    } else {
      assert (s + [d])[0] == s[0] && (s + [d])[1..] == s[1..] + [d];
      MagAppend(s[1..], d);
      var t, p := Mag(s[1..]), Pow(|s| - 1);
      assert B * (t + d * p) == B * t + d * (B * p);
    }
  }

  /** The value of a sequence, cut in two. */
  lemma {:induction false} MagSplit(s: seq<int>, k: nat)
    requires k <= |s|
    ensures Mag(s) == Mag(s[..k]) + Pow(k) * Mag(s[k..])
    decreases k
  {
    if k == 0 {
      assert s[..0] == [] && s[0..] == s;
    } else {
      MagSplit(s, k - 1);
      var p := Pow(k - 1);
      assert s[..k] == s[..k - 1] + [s[k - 1]];
      MagAppend(s[..k - 1], s[k - 1]);
      assert s[k - 1..][0] == s[k - 1] && s[k - 1..][1..] == s[k..];
      var t := Mag(s[k..]);
      assert p * (s[k - 1] + B * t) == s[k - 1] * p + (B * p) * t;
    }
  }

  lemma {:induction false} MagBound(s: seq<int>)
    requires AllDigits(s)
    ensures 0 <= Mag(s) < Pow(|s|)
  {
    if s != [] {
      MagBound(s[1..]);
    }
  }

  lemma MagUpdate(s: seq<int>, k: nat, v: int)
    requires k < |s|
    ensures Mag(s[k := v]) == Mag(s) + (v - s[k]) * Pow(k)
  {
    MagSplit(s, k);
    MagSplit(s[k := v], k);
    assert s[k := v][..k] == s[..k];
    assert s[k := v][k..][1..] == s[k..][1..];
    var p, t := Pow(k), Mag(s[k..][1..]);
    assert p * (v + B * t) - p * (s[k] + B * t) == (v - s[k]) * p;
  }

  /** Leading zero digits do not count. */
  lemma MagTopZero(s: seq<int>)
    requires s != [] && s[|s| - 1] == 0
    ensures Mag(s) == Mag(s[..|s| - 1])
  {
    assert s == s[..|s| - 1] + [0];
    MagAppend(s[..|s| - 1], 0);
  }

  lemma {:induction false} MagZeros(s: seq<int>)
    requires forall i :: 0 <= i < |s| ==> s[i] == 0
    ensures Mag(s) == 0
  {
    if s != [] {
      MagZeros(s[1..]);
    }
  }

  /** A nonzero top digit makes the number at least that power of the base. */
  lemma MagTop(s: seq<int>)
    requires AllDigits(s) && s != [] && s[|s| - 1] != 0
    ensures Pow(|s| - 1) <= Mag(s)
  {
    var k := |s| - 1;
    assert s == s[..k] + [s[k]];
    MagAppend(s[..k], s[k]);
    MagBound(s[..k]);
    DigitGap(Mag(s[..k]), s[k], 0, 0, Pow(k));
    DigitGap(0, s[k], Pow(k) - 1, 0, Pow(k));
  }

  /** More digits, larger number. */
  lemma LongerIsLarger(a: seq<int>, b: seq<int>)
    requires AllDigits(a) && AllDigits(b) && |a| > |b| && a[|a| - 1] != 0
    ensures Mag(a) > Mag(b)
  {
    MagTop(a);
    MagBound(b);
    if |b| < |a| - 1 {
      PowLess(|b|, |a| - 1);
    }
  }

  /** The first difference from the top decides. */
  lemma TopDifference(a: seq<int>, b: seq<int>, i: nat)
    requires AllDigits(a) && AllDigits(b) && |a| == |b| && i < |a| && a[i + 1..] == b[i + 1..] && a[i] > b[i]
    ensures Mag(a) > Mag(b)
  {
    hide Mag, Pow;
    MagSplit(a, i + 1);
    MagSplit(b, i + 1);
    assert a[..i + 1] == a[..i] + [a[i]] && b[..i + 1] == b[..i] + [b[i]];
    MagAppend(a[..i], a[i]);
    MagAppend(b[..i], b[i]);
    MagBound(a[..i]);
    MagBound(b[..i]);
    DigitGap(Mag(a[..i]), a[i], Mag(b[..i]), b[i], Pow(i));
  }

  lemma DigitGap(la: int, da: int, lb: int, db: int, p: int)
    requires 0 <= la && 0 <= lb < p && da > db
    ensures la + da * p > lb + db * p
  {
    assert da * p >= (db + 1) * p;
  }

  /** Equal values of normal sequences have equal digits. */
  lemma MagInjective(a: seq<int>, b: seq<int>)
    requires AllDigits(a) && AllDigits(b) && Mag(a) == Mag(b)
    requires (a != [] ==> a[|a| - 1] != 0) && (b != [] ==> b[|b| - 1] != 0)
    ensures a == b
  {
    if |a| > |b| {
      LongerIsLarger(a, b);
    } else if |b| > |a| {
      LongerIsLarger(b, a);
    } else if a != b {
      var i := TopMismatch(a, b);
      if a[i] > b[i] {
        TopDifference(a, b, i);
      } else {
        TopDifference(b, a, i);
      }
    }
  }

  lemma TopMismatch(a: seq<int>, b: seq<int>) returns (i: nat)
    requires |a| == |b| && a != b
    ensures i < |a| && a[i + 1..] == b[i + 1..] && a[i] != b[i]
  {
    i := |a| - 1;
    assert a[..i + 1] == a && b[..i + 1] == b;
    while a[i] == b[i]
      invariant i < |a| && a[i + 1..] == b[i + 1..] && a[..i + 1] != b[..i + 1]
      decreases i
    {
      assert a[i..] == [a[i]] + a[i + 1..] && b[i..] == [b[i]] + b[i + 1..];
      assert a[..i + 1] == a[..i] + [a[i]] && b[..i + 1] == b[..i] + [b[i]];
      i := i - 1;
    }
  }
}
