/** CPython-style integers: sign and digit count in one field, base 2^30 digits in an array. */
module PyLong {
  import opened Digits

  const UINT64 := 0x1_0000_0000_0000_0000
  const INT64_MAX := 0x7fff_ffff_ffff_ffff
  const INT64_MIN := -0x8000_0000_0000_0000

  function Abs(x: int): nat { if x < 0 then -x else x }

  class Long {
    var size: int                // number of digits; negative for a negative number
    const digit: array<int>

    /** The digits in use are digits. */
    ghost predicate InRange()
      reads this, digit
    {
      Abs(size) <= digit.Length && AllDigits(digit[..Abs(size)])
    }

    /** pylong_verify_invariants: no leading zero digit, every digit below the base. */
    ghost predicate Normal()
      reads this, digit
    {
      InRange() && (size != 0 ==> digit[Abs(size) - 1] != 0)
    }

    ghost function Magnitude(): int
      reads this, digit
      requires InRange()
    {
      Mag(digit[..Abs(size)])
    }

    ghost function Value(): int
      reads this, digit
      requires InRange()
    {
      if size < 0 then -Magnitude() else Magnitude()
    }

    /** pylong_alloc: n zero digits. */
    constructor (n: nat)
      ensures size == n && digit.Length == n && fresh(digit)
      ensures forall i :: 0 <= i < n ==> digit[i] == 0
    {
      size := n;
      digit := new int[n](_ => 0);
    }

    /** pylong_clamp: drop leading zero digits, keep the sign and the value. */
    method Clamp()
      requires InRange()
      modifies this`size
      ensures Normal() && Value() == old(Value())
      ensures size != 0 ==> (size < 0 <==> old(size) < 0)
    {
      var n := Abs(size);
      while n > 0 && digit[n - 1] == 0
        invariant 0 <= n <= Abs(size) && Mag(digit[..n]) == Mag(digit[..Abs(size)])
        modifies {}
      {
        MagTopZero(digit[..n]);
        assert digit[..n][..n - 1] == digit[..n - 1];
        n := n - 1;
      }
      assert AllDigits(digit[..n]);
      if n == 0 {
        assert digit[..0] == [];
        size := 0;
      } else if size < 0 {
        size := -n;
      } else {
        size := n;
      }
    }
  }

  /** A normal number is zero exactly when it has no digits, and its sign is the sign of its size. */
  lemma SignOfSize(a: Long)
    requires a.Normal()
    ensures (a.size == 0 <==> a.Value() == 0) && (a.size > 0 <==> a.Value() > 0) && (a.size < 0 <==> a.Value() < 0)
    ensures a.size != 0 ==> a.Magnitude() > 0
  {
    var s := a.digit[..Abs(a.size)];
    if s != [] {
      MagTop(s);
    }
  }

  // ---- conversion ----

  /** pylong_from_int64. */
  method FromInt64(val: int) returns (op: Long)
    requires INT64_MIN <= val <= INT64_MAX
    ensures op.Normal() && op.Value() == val && fresh(op) && fresh(op.digit)
  {
    if val == 0 {
      op := new Long(0);
      assert op.digit[..0] == [];
      return;
    }
    var uval := Abs(val);
    op := new Long(3);
    var count := 0;
    while uval > 0
      invariant 0 <= count <= 3 && 0 <= uval && Pow(count) * uval <= Abs(val)
      invariant AllDigits(op.digit[..count])
      invariant Mag(op.digit[..count]) + Pow(count) * uval == Abs(val)
      decreases uval
    {
      ThreeDigits(count, uval, Abs(val));
      var d, rest := uval % B, uval / B;
      op.digit[count] := d;
      assert op.digit[..count + 1] == op.digit[..count] + [d];
      MagAppend(op.digit[..count], d);
      Shift(Pow(count), uval, d, rest);
      MagBound(op.digit[..count + 1]);
      count, uval := count + 1, rest;
    }
    op.size := if val < 0 then -count else count;
    op.Clamp();
  }

  lemma Shift(p: int, u: int, d: int, q: int)
    requires u == q * B + d
    ensures d * p + (B * p) * q == p * u
  {
  }

  /** A 64-bit magnitude has at most three digits. */
  lemma ThreeDigits(count: nat, uval: int, v: int)
    requires count <= 3 && uval > 0 && Pow(count) * uval <= v <= 0x8000_0000_0000_0000
    ensures count < 3
  {
    assert Pow(1) == B * Pow(0);
    assert Pow(2) == B * Pow(1);
    assert Pow(3) == B * Pow(2);
  }

  /** The 64-bit accumulator of pylong_to_int64 over the digits s. */
  ghost function Wrapped(s: seq<int>): int { Mag(s) % UINT64 }

  /**
   pylong_to_int64: fails on more than three digits, and otherwise judges and returns the magnitude
   as it is left in a 64-bit accumulator.
   */
  method ToInt64(op: Long) returns (ret: int, out: int)
    requires op.Normal()
    ensures ret == 0 || ret == -1
    ensures ret == 0 <==> Abs(op.size) <= 3 &&
                          Wrapped(op.digit[..Abs(op.size)]) <= (if op.size < 0 then -INT64_MIN else INT64_MAX)
    ensures ret == 0 ==> out == (if op.size < 0 then -1 else 1) * Wrapped(op.digit[..Abs(op.size)])
  {
    var n := Abs(op.size);
    ghost var s := op.digit[..n];
    if op.size == 0 {
      return 0, 0;
    }
    if n > 3 {
      return -1, 0;
    }
    var uval := 0;
    var i := n;
    assert s[n..] == [];
    while i > 0
      invariant 0 <= i <= n && uval == Mag(s[i..]) % UINT64
    {
      assert s[i - 1..][0] == s[i - 1] && s[i - 1..][1..] == s[i..];
      Accumulate(Mag(s[i..]), s[i - 1]);
      uval := (uval * B + op.digit[i - 1]) % UINT64;
      i := i - 1;
    }
    assert s[0..] == s;
    if op.size > 0 {
      if uval > INT64_MAX {
        return -1, 0;
      }
      return 0, uval;
    }
    if uval > -INT64_MIN {
      return -1, 0;
    }
    return 0, -uval;
  }

  lemma Accumulate(v: int, d: int)
    ensures ((v % UINT64) * B + d) % UINT64 == (d + B * v) % UINT64
  {
    var q, r := v / UINT64, v % UINT64;
    assert d + B * v == UINT64 * (B * q) + (B * r + d);
    ModShift(B * r + d, B * q);
  }

  lemma ModShift(x: int, k: int)
    ensures (UINT64 * k + x) % UINT64 == x % UINT64
  {
    var q, r := x / UINT64, x % UINT64;
    assert UINT64 * k + x == UINT64 * (k + q) + r;
    ModUnique(UINT64 * k + x, k + q, r);
  }

  lemma ModUnique(x: int, q: int, r: int)
    requires x == UINT64 * q + r && 0 <= r < UINT64
    ensures x % UINT64 == r
  {
  }

  /** What a caller would want of the conversion: it succeeds exactly on int64 values and is exact. */
  ghost predicate ConvertsExactly(value: int, ret: int, out: int) {
    (ret == 0 <==> INT64_MIN <= value <= INT64_MAX) && (ret == 0 ==> out == value)
  }

  /** The largest magnitude that fits, by sign. */
  ghost function Limit(value: int): int { if value < 0 then -INT64_MIN else INT64_MAX }

  /**
   The conversion is exact unless a three-digit magnitude of 2^64 or more happens to wrap round to
   one that fits.
   */
  method ToInt64Exact(op: Long) returns (ret: int, out: int)
    requires op.Normal()
    ensures ConvertsExactly(op.Value(), ret, out) <==>
              op.Magnitude() < UINT64 || Abs(op.size) > 3 || op.Magnitude() % UINT64 > Limit(op.Value())
  {
    ret, out := ToInt64(op);
    SignOfSize(op);
    if Abs(op.size) > 3 {
      FourDigits(op.digit[..Abs(op.size)]);
    }
    if op.Magnitude() < UINT64 {
      ModUnique(op.Magnitude(), 0, op.Magnitude());
    }
  }

  lemma FourDigits(s: seq<int>)
    requires AllDigits(s) && |s| > 3 && s[|s| - 1] != 0
    ensures Mag(s) > UINT64
  {
    MagTop(s);
    if |s| > 4 {
      PowLess(3, |s| - 1);
    }
    assert Pow(1) == B * Pow(0);
    assert Pow(2) == B * Pow(1);
    assert Pow(3) == B * Pow(2);
  }

  /** Every int64, the minimum included, survives the round trip. */
  method RoundTrip(v: int) returns (ret: int, out: int)
    requires INT64_MIN <= v <= INT64_MAX
    ensures ret == 0 && out == v
  {
    var op := FromInt64(v);
    SignOfSize(op);
    ret, out := ToInt64Exact(op);
  }

  /** 2^64 is three digits long and converts, wrongly, to 0. */
  method TwoTo64Wraps() returns (ret: int, out: int)
    ensures ret == 0 && out == 0
  {
    var op := new Long(3);
    op.digit[2] := 16;
    assert op.digit[..3] == [0, 0, 16];
    assert Mag([0, 0, 16]) == UINT64 by {
      assert [0, 0, 16][1..] == [0, 16] && [0, 16][1..] == [16] && [16][1..] == [];
    }
    ret, out := ToInt64(op);
  }

  // ---- comparison ----

  /** pylong_compare_magnitude: the sign of |a| - |b|. */
  method CompareMagnitude(a: Long, b: Long) returns (c: int)
    requires a.Normal() && b.Normal()
    ensures c == if a.Magnitude() > b.Magnitude() then 1 else if a.Magnitude() < b.Magnitude() then -1 else 0
  {
    var na, nb := Abs(a.size), Abs(b.size);
    ghost var s, t := a.digit[..na], b.digit[..nb];
    if na > nb {
      LongerIsLarger(s, t);
      return 1;
    }
    if na < nb {
      LongerIsLarger(t, s);
      return -1;
    }
    var i := na;
    while i > 0
      invariant 0 <= i <= na && s[i..] == t[i..]
    {
      if a.digit[i - 1] > b.digit[i - 1] {
        TopDifference(s, t, i - 1);
        return 1;
      }
      if a.digit[i - 1] < b.digit[i - 1] {
        TopDifference(t, s, i - 1);
        return -1;
      }
      assert s[i - 1..] == [s[i - 1]] + s[i..] && t[i - 1..] == [t[i - 1]] + t[i..];
      i := i - 1;
    }
    assert s[0..] == s && t[0..] == t;
    c := 0;
  }

  /** The sign of a size. */
  function Sign(x: int): int { if x > 0 then 1 else if x < 0 then -1 else 0 }

  /** pylong_compare: the order of the values. */
  method Compare(a: Long, b: Long) returns (c: int)
    requires a.Normal() && b.Normal()
    ensures -1 <= c <= 1
    ensures c > 0 <==> a.Value() > b.Value()
    ensures c < 0 <==> a.Value() < b.Value()
    ensures c == 0 <==> a.Value() == b.Value()
  {
    SignOfSize(a);
    SignOfSize(b);
    var signA, signB := Sign(a.size), Sign(b.size);
    if signA > signB {
      return 1;
    }
    if signA < signB {
      return -1;
    }
    if signA == 0 {
      return 0;
    }
    if signA > 0 {
      c := CompareMagnitude(a, b);
    } else {
      c := CompareMagnitude(b, a);
    }
  }

  // ---- addition and subtraction of magnitudes ----

  lemma CarryStep(low: int, carry: int, p: int, sum: int, x: int)
    requires sum == x + carry
    ensures low + (sum % B) * p + (sum / B) * (B * p) == low + carry * p + x * p
  {
    var r, q := sum % B, sum / B;
    assert sum == B * q + r;
    assert r * p + q * (B * p) == (r + B * q) * p;
  }

  /** The first i digits of z and a carry hold what the first i digits of s and the number t add up to. */
  ghost predicate Sums(z: array<int>, i: nat, carry: int, s: seq<int>, t: int)
    reads z
  {
    && i <= z.Length && i <= |s| && 0 <= carry <= 1 && AllDigits(z[..i])
    && Mag(z[..i]) + carry * Pow(i) == Mag(s[..i]) + t
  }

  lemma SumsStart(z: array<int>, s: seq<int>)
    ensures Sums(z, 0, 0, s, 0)
  {
    MagNil();
    assert z[..0] == [] && s[..0] == [];
  }

  /** The loop over the digits that both have. */
  method AddBoth(z: array<int>, a: array<int>, b: array<int>, na: nat, nb: nat) returns (carry: int)
    requires z != a && z != b && nb <= na <= a.Length && nb <= b.Length && na < z.Length
    requires AllDigits(a[..na]) && AllDigits(b[..nb])
    modifies z
    ensures Sums(z, nb, carry, a[..na], Mag(b[..nb]))
  {
    hide Mag, Pow, Sums;
    ghost var s, t := a[..na], b[..nb];
    carry := 0;
    var i := 0;
    SumsStart(z, s);
    MagNil();
    assert t[..0] == [];
    while i < nb
      invariant 0 <= i <= nb && Sums(z, i, carry, s, Mag(t[..i]))
    {
      var sum := a[i] + b[i] + carry;
      assert s[i] == a[i] && t[i] == b[i];
      carry := PutSum(z, i, carry, sum, s, Mag(t[..i]), t[i]);
      MagAppend(t[..i], t[i]);
      assert t[..i + 1] == t[..i] + [t[i]];
      i := i + 1;
    }
    assert t[..nb] == t;
  }

  /** The loop over the rest of the longer one. */
  method AddRest(z: array<int>, a: array<int>, na: nat, nb: nat, carry0: int, ghost t: int) returns (carry: int)
    requires z != a && nb <= na <= a.Length && na < z.Length && AllDigits(a[..na]) && Sums(z, nb, carry0, a[..na], t)
    modifies z
    ensures Sums(z, na, carry, a[..na], t)
  {
    hide Mag, Pow, Sums;
    ghost var s := a[..na];
    carry := carry0;
    var i := nb;
    while i < na
      invariant nb <= i <= na && Sums(z, i, carry, s, t)
    {
      var sum := a[i] + carry;
      assert s[i] == a[i];
      carry := PutSum(z, i, carry, sum, s, t, 0);
      i := i + 1;
    }
  }

  /** One digit of a sum, and its carry. */
  method PutSum(z: array<int>, i: nat, carry: int, sum: int, ghost s: seq<int>, ghost t: int, ghost y: int)
    returns (carry': int)
    requires Sums(z, i, carry, s, t) && i < |s| && i < z.Length && Digit(s[i]) && Digit(y) && sum == s[i] + y + carry
    modifies z
    ensures Sums(z, i + 1, carry', s, t + y * Pow(i))
  {
    hide Mag, Pow;
    ghost var was := z[..i];
    DigitStep(was, s, i, carry, sum, y);
    z[i] := sum % B;
    assert z[..i + 1] == was + [sum % B];
    carry' := sum / B;
  }

  lemma DigitStep(z: seq<int>, s: seq<int>, i: nat, carry: int, sum: int, y: int)
    requires |z| == i && i < |s| && sum == s[i] + y + carry
    ensures Mag(z + [sum % B]) + (sum / B) * Pow(i + 1) + Mag(s[..i])
         == Mag(z) + carry * Pow(i) + Mag(s[..i + 1]) + y * Pow(i)
  {
    hide Mag;
    MagAppend(z, sum % B);
    assert s[..i + 1] == s[..i] + [s[i]];
    MagAppend(s[..i], s[i]);
    CarryStep(Mag(z), carry, Pow(i), sum, s[i] + y);
    PowSucc(i);
    Distribute(s[i], y, Pow(i));
  }

  lemma Distribute(x: int, y: int, p: int)
    ensures (x + y) * p == x * p + y * p
  {
  }

  /** pylong_add_magnitude; the shorter operand may come first. */
  method AddMagnitude(a: Long, b: Long) returns (z: Long)
    requires a.Normal() && b.Normal()
    ensures z.Normal() && z.size >= 0 && z.Value() == a.Magnitude() + b.Magnitude() && fresh(z) && fresh(z.digit)
    decreases if Abs(a.size) < Abs(b.size) then 1 else 0
  {
    hide Mag, Pow;
    var na, nb := Abs(a.size), Abs(b.size);
    if na < nb {
      z := AddMagnitude(b, a);
      return;
    }
    z := new Long(na + 1);
    var carry := AddBoth(z.digit, a.digit, b.digit, na, nb);
    carry := AddRest(z.digit, a.digit, na, nb, carry, Mag(b.digit[..nb]));
    assert a.digit[..na][..na] == a.digit[..na];
    var i := na;
    if carry > 0 {
      MagAppend(z.digit[..i], carry);
      z.digit[i] := carry;
      assert z.digit[..i + 1] == z.digit[..i] + [carry];
      i := i + 1;
    }
    z.size := i;
    z.Clamp();
  }

  /** One borrow step: the digit difference, with BASE added when it is negative. */
  lemma BorrowStep(z: seq<int>, s: seq<int>, i: nat, y: int, borrow: int, d: int, borrow': int)
    requires |z| == i && i < |s| && d == s[i] - y - borrow + borrow' * B
    ensures Mag(z + [d]) - borrow' * Pow(i + 1) == Mag(z) - borrow * Pow(i) + Mag(s[..i + 1]) - Mag(s[..i]) - y * Pow(i)
  {
    hide Mag;
    MagAppend(z, d);
    assert s[..i + 1] == s[..i] + [s[i]];
    MagAppend(s[..i], s[i]);
    var p := Pow(i);
    BorrowArith(s[i], y, borrow, borrow', d, p);
  }

  lemma BorrowArith(x: int, y: int, borrow: int, borrow': int, d: int, p: int)
    requires d == x - y - borrow + borrow' * B
    ensures d * p - borrow' * (B * p) == x * p - y * p - borrow * p
  {
    assert d * p == (x - y - borrow) * p + (borrow' * B) * p;
    assert (x - y - borrow) * p == x * p - y * p - borrow * p;
  }

  /** The first i digits of z, less a borrow, hold what is left of the first i digits of s without the number t. */
  ghost predicate Diffs(z: array<int>, i: nat, borrow: int, s: seq<int>, t: int)
    reads z
  {
    && i <= z.Length && i <= |s| && 0 <= borrow <= 1 && AllDigits(z[..i])
    && Mag(z[..i]) - borrow * Pow(i) == Mag(s[..i]) - t
  }

  lemma DiffsStart(z: array<int>, s: seq<int>)
    ensures Diffs(z, 0, 0, s, 0)
  {
    MagNil();
    assert z[..0] == [] && s[..0] == [];
  }

  /** One digit of a difference, and its borrow. */
  method PutDiff(z: array<int>, i: nat, borrow: int, diff0: int, ghost s: seq<int>, ghost t: int, ghost y: int)
    returns (borrow': int)
    requires Diffs(z, i, borrow, s, t) && i < |s| && i < z.Length && Digit(s[i]) && Digit(y)
    requires diff0 == s[i] - y - borrow
    modifies z
    ensures Diffs(z, i + 1, borrow', s, t + y * Pow(i))
  {
    hide Mag, Pow;
    ghost var was := z[..i];
    var diff := diff0;
    borrow' := 0;
    if diff < 0 {
      diff, borrow' := diff + B, 1;
    }
    BorrowStep(was, s, i, y, borrow, diff, borrow');
    z[i] := diff;
    assert z[..i + 1] == was + [diff];
  }

  /** The loop over the digits that both have. */
  method SubBoth(z: array<int>, a: array<int>, b: array<int>, na: nat, nb: nat) returns (borrow: int)
    requires z != a && z != b && nb <= na <= a.Length && nb <= b.Length && na <= z.Length
    requires AllDigits(a[..na]) && AllDigits(b[..nb])
    modifies z
    ensures Diffs(z, nb, borrow, a[..na], Mag(b[..nb]))
  {
    hide Mag, Pow, Diffs;
    ghost var s, t := a[..na], b[..nb];
    borrow := 0;
    var i := 0;
    DiffsStart(z, s);
    MagNil();
    assert t[..0] == [];
    while i < nb
      invariant 0 <= i <= nb && Diffs(z, i, borrow, s, Mag(t[..i]))
    {
      assert s[i] == a[i] && t[i] == b[i];
      borrow := PutDiff(z, i, borrow, a[i] - b[i] - borrow, s, Mag(t[..i]), t[i]);
      MagAppend(t[..i], t[i]);
      assert t[..i + 1] == t[..i] + [t[i]];
      i := i + 1;
    }
    assert t[..nb] == t;
  }

  /** The loop over the rest of the longer one. */
  method SubRest(z: array<int>, a: array<int>, na: nat, nb: nat, borrow0: int, ghost t: int) returns (borrow: int)
    requires z != a && nb <= na <= a.Length && na <= z.Length && AllDigits(a[..na]) && Diffs(z, nb, borrow0, a[..na], t)
    modifies z
    ensures Diffs(z, na, borrow, a[..na], t)
  {
    hide Mag, Pow, Diffs;
    ghost var s := a[..na];
    borrow := borrow0;
    var i := nb;
    while i < na
      invariant nb <= i <= na && Diffs(z, i, borrow, s, t)
    {
      assert s[i] == a[i];
      borrow := PutDiff(z, i, borrow, a[i] - borrow, s, t, 0);
      i := i + 1;
    }
  }

  /** pylong_sub_magnitude: |a| - |b| for |a| >= |b|; the final borrow is 0. */
  method SubMagnitude(a: Long, b: Long) returns (z: Long)
    requires a.Normal() && b.Normal() && a.Magnitude() >= b.Magnitude()
    ensures z.Normal() && z.size >= 0 && z.Value() == a.Magnitude() - b.Magnitude() && fresh(z) && fresh(z.digit)
  {
    hide Mag, Pow;
    var na, nb := Abs(a.size), Abs(b.size);
    ghost var s := a.digit[..na];
    if na < nb {
      LongerIsLarger(b.digit[..nb], s);
    }
    z := new Long(na);
    var borrow := SubBoth(z.digit, a.digit, b.digit, na, nb);
    borrow := SubRest(z.digit, a.digit, na, nb, borrow, Mag(b.digit[..nb]));
    assert s[..na] == s;
    MagBound(z.digit[..na]);
    assert borrow == 0;
    z.Clamp();
  }

  // ---- signed operations ----

  /** A fresh number with the digits of a and the given signed size. */
  method Copy(a: Long, size: int) returns (z: Long)
    requires a.Normal() && Abs(size) == Abs(a.size)
    ensures z.Normal() && z.size == size && z.Magnitude() == a.Magnitude() && fresh(z) && fresh(z.digit)
  {
    var n := Abs(a.size);
    z := new Long(n);
    forall i | 0 <= i < n {
      z.digit[i] := a.digit[i];
    }
    assert z.digit[..n] == a.digit[..n];
    z.size := size;
  }

  /** pylong_neg. */
  method Neg(a: Long) returns (z: Long)
    requires a.Normal()
    ensures z.Normal() && z.Value() == -a.Value() && fresh(z) && fresh(z.digit)
  {
    SignOfSize(a);
    z := Copy(a, -a.size);
  }

  /** Flips the sign of a number that nobody else holds. */
  method Negate(z: Long)
    requires z.Normal()
    modifies z`size
    ensures z.Normal() && z.Value() == -old(z.Value())
  {
    SignOfSize(z);
    z.size := -z.size;
  }

  /** pylong_add: five cases by sign and relative magnitude. */
  method Add(a: Long, b: Long) returns (z: Long)
    requires a.Normal() && b.Normal()
    ensures z.Normal() && z.Value() == a.Value() + b.Value() && fresh(z) && fresh(z.digit)
  {
    SignOfSize(a);
    SignOfSize(b);
    if a.size == 0 {
      z := Copy(b, b.size);
      return;
    }
    if b.size == 0 {
      z := Copy(a, a.size);
      return;
    }
    if (a.size > 0 && b.size > 0) || (a.size < 0 && b.size < 0) {
      z := AddMagnitude(a, b);
      if a.size < 0 {
        Negate(z);
      }
      return;
    }
    var cmp := CompareMagnitude(a, b);
    if cmp == 0 {
      z := new Long(0);
      assert z.digit[..0] == [];
      return;
    }
    if cmp > 0 {
      z := SubMagnitude(a, b);
      if a.size < 0 {
        Negate(z);
      }
    } else {
      z := SubMagnitude(b, a);
      if b.size < 0 {
        Negate(z);
      }
    }
  }

  /** pylong_sub. */
  method Sub(a: Long, b: Long) returns (z: Long)
    requires a.Normal() && b.Normal()
    ensures z.Normal() && z.Value() == a.Value() - b.Value() && fresh(z) && fresh(z.digit)
  {
    var negB := Neg(b);
    z := Add(a, negB);
  }

  /** pylong_invert: the bitwise complement, -(a + 1). */
  method Invert(a: Long) returns (z: Long)
    requires a.Normal()
    ensures z.Normal() && z.Value() == -(a.Value() + 1) && fresh(z) && fresh(z.digit)
  {
    var one := FromInt64(1);
    var plusOne := Add(a, one);
    z := Neg(plusOne);
  }

  // ---- multiplication ----

  /** The product step stays below 2^60, so its carry is again one digit. */
  lemma ProductFits(zd: int, carry: int, x: int, y: int)
    requires Digit(zd) && Digit(carry) && Digit(x) && Digit(y)
    ensures 0 <= zd + carry + x * y < B * B
    ensures Digit((zd + carry + x * y) / B) && Digit((zd + carry + x * y) % B)
  {
    MulLe(x, B - 1, y);
    MulLe(0, x, y);
    OneDigitQuotient(zd + carry + x * y);
  }

  lemma OneDigitQuotient(v: int)
    requires 0 <= v < B * B
    ensures Digit(v / B) && Digit(v % B)
  {
    var q, r := v / B, v % B;
    assert v == B * q + r;
  }

  lemma RowStep(z: int, zd: int, carry: int, x: int, p: int, prod: int)
    requires prod == zd + carry + x
    ensures z + (prod % B - zd) * p + (prod / B) * (B * p) == z + carry * p + x * p
  {
    CarryStep(0, carry + zd, p, prod, x);
    assert (prod % B - zd) * p == (prod % B) * p - zd * p;
    assert (carry + zd) * p == carry * p + zd * p;
  }

  lemma RowPart(t: seq<int>, i: nat, j: nat, x: int)
    requires j < |t|
    ensures x * Pow(i) * Mag(t[..j + 1]) == x * Pow(i) * Mag(t[..j]) + (x * t[j]) * Pow(i + j)
  {
    hide Mag, Pow;
    assert t[..j + 1] == t[..j] + [t[j]];
    MagAppend(t[..j], t[j]);
    PowAdd(i, j);
    RowArith(x, Pow(i), Mag(t[..j]), t[j], Pow(j));
  }

  lemma RowArith(x: int, p: int, m: int, d: int, q: int)
    ensures x * p * (m + d * q) == x * p * m + (x * d) * (p * q)
  {
    var y := x * p;
    assert y * (m + d * q) == y * m + y * (d * q);
    assert (x * p) * (d * q) == (x * d) * (p * q) by {
      Assoc(x, p, d * q);
      assert p * (d * q) == d * (p * q);
      Assoc(x, d, p * q);
    }
  }

  /** What a row adds cannot carry beyond one digit past the end of b. */
  lemma RowBound(z0: int, x: int, i: nat, nb: nat, m: int)
    requires 0 <= z0 < Pow(i + nb) && Digit(x) && 0 <= m < Pow(nb)
    ensures z0 + x * Pow(i) * m < Pow(i + nb + 1)
  {
    PowAdd(i, nb);
    var p, q := Pow(i), Pow(nb);
    RowBoundArith(x, p, q, m);
    assert Pow(i + nb + 1) == B * Pow(i + nb);
  }

  lemma RowBoundArith(x: int, p: int, q: int, m: int)
    requires Digit(x) && 0 <= m < q && p >= 1
    ensures x * p * m <= (B - 1) * (p * q)
  {
    MulLe(m, q, p);
    MulLe(0, m, p);
    Assoc(x, p, m);
    MulLe(x, B - 1, p * m);
  }

  lemma CarryEnds(z: int, carry: int, i: nat, j: nat, nb: nat)
    requires 0 <= z && 0 <= carry && z + carry * Pow(i + j) < Pow(i + nb + 1) && j > nb
    ensures carry == 0
  {
    PowRises(i + nb + 1, i + j);
    MulLe(if carry > 0 then 1 else 0, carry, Pow(i + j));
  }

  lemma PowRises(i: nat, j: nat)
    requires i <= j
    ensures Pow(i) <= Pow(j)
  {
    if i < j {
      PowLess(i, j);
    }
  }

  lemma RowLoop(m: seq<int>, t: seq<int>, i: nat, j: nat, x: int, carry: int, prod: int)
    requires i + j < |m| && prod == m[i + j] + carry + (if j < |t| then x * t[j] else 0)
    ensures var done, done' := if j < |t| then j else |t|, if j + 1 < |t| then j + 1 else |t|;
      Mag(m[i + j := prod % B]) + (prod / B) * Pow(i + j + 1) + x * Pow(i) * Mag(t[..done])
        == Mag(m) + carry * Pow(i + j) + x * Pow(i) * Mag(t[..done'])
  {
    hide Mag, Pow;
    MagUpdate(m, i + j, prod % B);
    PowSucc(i + j);
    RowStep(Mag(m), m[i + j], carry, if j < |t| then x * t[j] else 0, Pow(i + j), prod);
    if j < |t| {
      RowPart(t, i, j, x);
    }
  }

  /** What row i of the product contributes. */
  ghost function RowValue(x: int, i: nat, m: int): int { x * Pow(i) * m }

  ghost function Times(x: int, y: int): int { x * y }

  /** One row of the schoolbook product: add x * b, shifted i digits, into z. */
  method AddRow(z: array<int>, b: Long, x: int, i: nat)
    requires b.Normal() && z != b.digit && Digit(x) && i + Abs(b.size) + 1 <= z.Length
    requires AllDigits(z[..]) && Mag(z[..]) < Pow(i + Abs(b.size))
    modifies z
    ensures AllDigits(z[..]) && Mag(z[..]) == old(Mag(z[..])) + RowValue(x, i, b.Magnitude())
  {
    hide Mag, Pow;
    var nb := Abs(b.size);
    ghost var t, z0 := b.digit[..nb], Mag(z[..]);
    MagBound(z[..]);
    MagBound(t);
    RowBound(z0, x, i, nb, Mag(t));
    var carry, j := 0, 0;
    MagNil();
    assert t[..0] == [];
    ghost var done := 0;
    while j < nb || carry > 0
      invariant 0 <= j <= nb + 1 && Digit(carry) && AllDigits(z[..]) && (j > nb ==> carry == 0)
      invariant b.digit[..nb] == t && done == if j < nb then j else nb
      invariant Mag(z[..]) + carry * Pow(i + j) == z0 + x * Pow(i) * Mag(t[..done])
      decreases nb + 1 - j
    {
      ghost var m := z[..];
      assert j < nb ==> Digit(t[j]);
      assert Digit(m[i + j]);
      ProductFits(z[i + j], carry, x, if j < nb then b.digit[j] else 0);
      var prod := z[i + j] + carry;
      if j < nb {
        prod := prod + x * b.digit[j];
      }
      RowLoop(m, t, i, j, x, carry, prod);
      z[i + j] := prod % B;
      assert z[..] == m[i + j := prod % B];
      carry := prod / B;
      j := j + 1;
      done := if j < nb then j else nb;
      MagBound(z[..]);
      if j > nb {
        assert t[..done] == t;
        CarryEnds(Mag(z[..]), carry, i, j, nb);
      }
    }
    assert t[..done] == t;
  }

  lemma ProductBound(x: int, y: int, i: nat, nb: nat)
    requires 0 <= x < Pow(i) && 0 <= y < Pow(nb)
    ensures 0 <= Times(x, y) < Pow(i + nb)
  {
    PowAdd(i, nb);
    MulLe(x, Pow(i) - 1, y);
    MulLe(y, Pow(nb) - 1, Pow(i));
    MulLe(0, x, y);
  }

  lemma RowSum(s: seq<int>, i: nat, y: int)
    requires i < |s|
    ensures Times(Mag(s[..i]), y) + RowValue(s[i], i, y) == Times(Mag(s[..i + 1]), y)
  {
    hide Mag, Pow;
    assert s[..i + 1] == s[..i] + [s[i]];
    MagAppend(s[..i], s[i]);
    Distribute(Mag(s[..i]), s[i] * Pow(i), y);
  }

  /** The product loops: one row for every digit of a. */
  method MulMagnitude(a: Long, b: Long) returns (z: Long)
    requires a.Normal() && b.Normal() && a.size != 0
    ensures fresh(z) && fresh(z.digit) && z.size == Abs(a.size) + Abs(b.size) == z.digit.Length
    ensures z.InRange() && z.Magnitude() == Times(a.Magnitude(), b.Magnitude())
  {
    hide Mag, Pow, Times, RowValue;
    var na, nb := Abs(a.size), Abs(b.size);
    ghost var s, m := a.digit[..na], b.Magnitude();
    z := new Long(na + nb);
    MagZeros(z.digit[..]);
    MagBound(b.digit[..nb]);
    TimesZero(s, m);
    var i := 0;
    while i < na
      invariant 0 <= i <= na && AllDigits(z.digit[..])
      invariant Mag(z.digit[..]) == Times(Mag(s[..i]), m)
      modifies z.digit
    {
      MagBound(s[..i]);
      ProductBound(Mag(s[..i]), m, i, nb);
      assert Digit(s[i]);
      AddRow(z.digit, b, a.digit[i], i);
      RowSum(s, i, m);
      i := i + 1;
    }
    assert s[..na] == s && z.digit[..] == z.digit[..na + nb];
  }

  lemma TimesZero(s: seq<int>, m: int)
    ensures Times(Mag(s[..0]), m) == 0
  {
  }

  /** pylong_mul: the schoolbook product, normalised, of any two numbers. */
  method Mul(a: Long, b: Long) returns (z: Long)
    requires a.Normal() && b.Normal()
    ensures z.Normal() && z.Value() == a.Value() * b.Value() && fresh(z) && fresh(z.digit)
  {
    hide Mag;
    SignOfSize(a);
    SignOfSize(b);
    MagNil();
    if a.size == 0 || b.size == 0 {
      z := new Long(0);
      assert z.digit[..0] == [];
      return;
    }
    z := MulMagnitude(a, b);
    ProductSign(a.Magnitude(), b.Magnitude(), a.size < 0, b.size < 0);
    if (a.size < 0) != (b.size < 0) {
      z.size := -z.size;
    }
    z.Clamp();
  }

  lemma ProductSign(x: int, y: int, negX: bool, negY: bool)
    ensures (if negX then -x else x) * (if negY then -y else y) == if negX != negY then -(x * y) else x * y
  {
  }

  /** Two normal numbers with the same value have the same size and the same digits. */
  lemma NormalFormIsUnique(a: Long, b: Long)
    requires a.Normal() && b.Normal() && a.Value() == b.Value()
    ensures a.size == b.size && a.digit[..Abs(a.size)] == b.digit[..Abs(b.size)]
  {
    SignOfSize(a);
    SignOfSize(b);
    MagInjective(a.digit[..Abs(a.size)], b.digit[..Abs(b.size)]);
  }
}
