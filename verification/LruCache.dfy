/** The proxy's timestamp cache: a fixed array of slots that behaves as a move-to-front list cut to size. */
module LruCache {
  import opened Wrappers

  datatype Entry = Entry(key: string, value: seq<int>)

  /** One cache_object_t. */
  datatype Slot = Slot(valid: bool, clk: int, key: string, value: seq<int>)

  // ---- the recency list ----

  /** Everything in l except entries with key k. */
  ghost function Drop(l: seq<Entry>, k: string): seq<Entry> {
    if l == [] then [] else (if l[0].key == k then [] else [l[0]]) + Drop(l[1..], k)
  }

  /** Without bound: the entries used, most recent first, each key once with its latest value. */
  ghost function Recency(uses: seq<Entry>): seq<Entry> {
    if uses == [] then [] else
      var u := uses[|uses| - 1];
      [u] + Drop(Recency(uses[..|uses| - 1]), u.key)
  }

  ghost function Take(l: seq<Entry>, n: nat): seq<Entry> { if |l| <= n then l else l[..n] }

  ghost predicate Distinct(l: seq<Entry>) { forall i, j :: 0 <= i < j < |l| ==> l[i].key != l[j].key }

  ghost function Without(l: seq<Entry>, i: nat): seq<Entry>
    requires i < |l|
  {
    l[..i] + l[i + 1..]
  }

  lemma {:induction false} DropAbsent(l: seq<Entry>, k: string)
    requires forall i :: 0 <= i < |l| ==> l[i].key != k
    ensures Drop(l, k) == l
  {
    if l != [] {
      DropAbsent(l[1..], k);
    }
  }

  lemma {:induction false} DropAt(l: seq<Entry>, k: string, i: nat)
    requires Distinct(l) && i < |l| && l[i].key == k
    ensures Drop(l, k) == Without(l, i)
  {
    if i == 0 {
      DropAbsent(l[1..], k);
    } else {
      DropAt(l[1..], k, i - 1);
      assert Without(l, i) == [l[0]] + Without(l[1..], i - 1);
    }
  }

  lemma {:induction false} DropDistinct(l: seq<Entry>, k: string)
    requires Distinct(l)
    ensures Distinct(Drop(l, k)) && forall e :: e in Drop(l, k) <==> e in l && e.key != k
  {
    if l != [] {
      DropDistinct(l[1..], k);
      var d := Drop(l[1..], k);
      assert forall e :: e in l[1..] ==> e in l && e.key != l[0].key;
      assert forall e :: e in l <==> e == l[0] || e in l[1..];
      assert forall i :: 0 <= i < |d| ==> d[i] in d;
    }
  }

  lemma {:induction false} RecencyDistinct(uses: seq<Entry>)
    ensures Distinct(Recency(uses))
  {
    if uses != [] {
      RecencyDistinct(uses[..|uses| - 1]);
      var r, k := Recency(uses[..|uses| - 1]), uses[|uses| - 1].key;
      DropDistinct(r, k);
      assert forall i :: 0 <= i < |Drop(r, k)| ==> Drop(r, k)[i] in Drop(r, k);
    }
  }

  /** No use after j has the key of use j. */
  ghost predicate LastUse(uses: seq<Entry>, j: nat) {
    j < |uses| && forall i :: j < i < |uses| ==> uses[i].key != uses[j].key
  }

  /** at lists the positions of uses whose entries l holds, latest first. */
  ghost predicate Positions(uses: seq<Entry>, l: seq<Entry>, at: seq<nat>) {
    && |at| == |l|
    && (forall i :: 0 <= i < |at| ==> at[i] < |uses| && l[i] == uses[at[i]])
    && (forall i, j :: 0 <= i < j < |at| ==> at[i] > at[j])
  }

  /** Positions stay as they are while uses are added, and when one is taken out. */
  lemma PositionsKept(uses: seq<Entry>, l: seq<Entry>, at: seq<nat>, u: Entry, i: nat)
    requires Positions(uses, l, at)
    ensures Positions(uses + [u], l, at)
    ensures Positions(uses + [u], [u] + l, [|uses|] + at)
    ensures i < |l| ==> Positions(uses, Without(l, i), at[..i] + at[i + 1..])
  {
  }

  lemma LastUseNext(uses: seq<Entry>, u: Entry, j: nat)
    ensures LastUse(uses + [u], j) <==> j == |uses| || (LastUse(uses, j) && uses[j].key != u.key)
  {
    var all := uses + [u];
    assert all[|uses|] == u && forall i :: 0 <= i < |uses| ==> all[i] == uses[i];
  }

  lemma WithoutHolds(at: seq<nat>, r: nat, j: nat)
    requires r < |at| && forall i, k :: 0 <= i < k < |at| ==> at[i] > at[k]
    ensures j in at[..r] + at[r + 1..] <==> j in at && j != at[r]
  {
    var rest := at[..r] + at[r + 1..];
    if j in at && j != at[r] {
      var i :| 0 <= i < |at| && at[i] == j;
      assert rest[if i < r then i else i - 1] == j;
    }
  }

  lemma NextPositions(uses: seq<Entry>, l: seq<Entry>, at0: seq<nat>, u: Entry) returns (at: seq<nat>)
    requires Positions(uses, l, at0) && Distinct(l) && forall j: nat :: LastUse(uses, j) <==> j in at0
    ensures Positions(uses + [u], [u] + Drop(l, u.key), at)
    ensures forall j: nat :: LastUse(uses + [u], j) <==> j in at
  {
    hide Drop, LastUse;
    var kept := at0;
    if r: nat :| r < |l| && l[r].key == u.key {
      DropAt(l, u.key, r);
      PositionsKept(uses, l, at0, u, r);
      kept := at0[..r] + at0[r + 1..];
      forall j: nat ensures LastUse(uses + [u], j) <==> j == |uses| || j in kept {
        LastUseNext(uses, u, j);
        WithoutHolds(at0, r, j);
        if i: nat :| i < |at0| && at0[i] == j {
          assert i != r ==> l[i].key != u.key;
        }
      }
      PositionsKept(uses, Without(l, r), kept, u, 0);
    } else {
      DropAbsent(l, u.key);
      forall j: nat ensures LastUse(uses + [u], j) <==> j == |uses| || j in kept {
        LastUseNext(uses, u, j);
        if i: nat :| i < |at0| && at0[i] == j {
          assert l[i].key != u.key;
        }
      }
      PositionsKept(uses, l, kept, u, 0);
    }
    at := [|uses|] + kept;
  }

  lemma {:induction false} RecencyPositions(uses: seq<Entry>) returns (at: seq<nat>)
    ensures Positions(uses, Recency(uses), at)
    ensures forall j: nat :: LastUse(uses, j) <==> j in at
  {
    hide Drop, Distinct;
    at := [];
    if uses != [] {
      var n := |uses| - 1;
      var before, u := uses[..n], uses[n];
      var l := Recency(before);
      assert uses == before + [u];
      at := RecencyPositions(before);
      RecencyDistinct(before);
      at := NextPositions(before, l, at, u);
    }
  }

  /**
   What the recency list is: at lists, latest first, every position at which a key is used for the last
   time, and the list holds the uses at those positions.
   */
  lemma RecencyMeaning(uses: seq<Entry>) returns (at: seq<nat>)
    ensures |at| == |Recency(uses)|
    ensures forall i :: 0 <= i < |at| ==> at[i] < |uses| && Recency(uses)[i] == uses[at[i]]
    ensures forall i, j :: 0 <= i < j < |at| ==> at[i] > at[j]
    ensures forall j: nat :: j in at <==> j < |uses| && forall i :: j < i < |uses| ==> uses[i].key != uses[j].key
  {
    at := RecencyPositions(uses);
    assert forall j: nat :: LastUse(uses, j) <==> j in at;
  }

  /** The bounded list after a use of e: e in front; a known key leaves its place, else a full list loses its last. */
  ghost function Used(l: seq<Entry>, n: nat, e: Entry): seq<Entry>
    requires n > 0
  {
    [e] + (if exists i :: 0 <= i < |l| && l[i].key == e.key then Drop(l, e.key) else Take(l, n - 1))
  }

  /** Using e and then cutting to n is cutting to n and then using e. */
  lemma UseCommutesWithCut(u: seq<Entry>, n: nat, e: Entry)
    requires Distinct(u) && n > 0
    ensures Used(Take(u, n), n, e) == Take([e] + Drop(u, e.key), n)
  {
    hide Drop;
    var l := Take(u, n);
    if i :| 0 <= i < |u| && u[i].key == e.key {
      DropAt(u, e.key, i);
      CutAt(u, n, e, i);
    } else {
      DropAbsent(u, e.key);
      assert Take([e] + u, n) == [e] + Take(l, n - 1);
    }
  }

  lemma CutAt(u: seq<Entry>, n: nat, e: Entry, i: nat)
    requires Distinct(u) && n > 0 && i < |u| && u[i].key == e.key
    ensures Used(Take(u, n), n, e) == Take([e] + Without(u, i), n)
  {
    hide *;
    if i < n {
      CutBehind(u, n, e, i);
    } else {
      CutBefore(u, n, e, i);
    }
  }

  /** The known key is among the n kept ones. */
  lemma CutBehind(u: seq<Entry>, n: nat, e: Entry, i: nat)
    requires Distinct(u) && i < |u| && i < n && u[i].key == e.key
    ensures Used(Take(u, n), n, e) == Take([e] + Without(u, i), n)
  {
    hide Drop;
    var l := Take(u, n);
    assert l[i].key == e.key;
    DropAt(l, e.key, i);
    TakeWithout(u, n, e, i);
  }

  lemma TakeWithout(u: seq<Entry>, n: nat, e: Entry, i: nat)
    requires i < |u| && i < n
    ensures Take([e] + Without(u, i), n) == [e] + Without(Take(u, n), i)
  {
  }

  /** The known key has been cut off. */
  lemma CutBefore(u: seq<Entry>, n: nat, e: Entry, i: nat)
    requires Distinct(u) && 0 < n <= i < |u| && u[i].key == e.key
    ensures Used(Take(u, n), n, e) == Take([e] + Without(u, i), n)
  {
    hide Drop;
    var l := Take(u, n);
    assert forall j :: 0 <= j < |l| ==> l[j] == u[j] && l[j].key != e.key;
    TakeBefore(u, n, e, i);
  }

  lemma TakeBefore(u: seq<Entry>, n: nat, e: Entry, i: nat)
    requires 0 < n <= i < |u|
    ensures Take([e] + Without(u, i), n) == [e] + Take(Take(u, n), n - 1)
  {
  }

  lemma UseExtendsHistory(uses: seq<Entry>, n: nat, e: Entry)
    requires n > 0
    ensures Used(Take(Recency(uses), n), n, e) == Take(Recency(uses + [e]), n)
  {
    RecencyDistinct(uses);
    UseCommutesWithCut(Recency(uses), n, e);
    assert (uses + [e])[..|uses|] == uses;
  }

  // ---- the slots ----

  /** order lists valid slots, most recently stamped first. */
  ghost predicate Falling(slots: seq<Slot>, order: seq<nat>, last: int) {
    && (forall i :: 0 <= i < |order| ==> order[i] < |slots| && slots[order[i]].valid && slots[order[i]].clk <= last)
    && (forall i, j :: 0 <= i < j < |order| ==> slots[order[i]].clk > slots[order[j]].clk)
  }

  /** order lists every valid slot, except perhaps x. */
  ghost predicate Complete(slots: seq<Slot>, order: seq<nat>, x: int) {
    forall s :: 0 <= s < |slots| && slots[s].valid && s != x ==> s in order
  }

  ghost predicate Ordered(slots: seq<Slot>, order: seq<nat>, last: int) {
    Falling(slots, order, last) && Complete(slots, order, -1)
  }

  /** The entries of the slots, in the given order. */
  ghost function View(slots: seq<Slot>, order: seq<nat>): (v: seq<Entry>)
    requires forall i :: 0 <= i < |order| ==> order[i] < |slots|
    ensures |v| == |order|
    ensures forall i :: 0 <= i < |v| ==> v[i] == Entry(slots[order[i]].key, slots[order[i]].value)
  {
    seq(|order|, i requires 0 <= i < |order| => Entry(slots[order[i]].key, slots[order[i]].value))
  }

  lemma Rank(slots: seq<Slot>, order: seq<nat>, last: int, s: nat) returns (r: nat)
    requires Ordered(slots, order, last) && s < |slots| && slots[s].valid
    ensures r < |order| && order[r] == s
  {
    assert s in order;
    r :| 0 <= r < |order| && order[r] == s;
  }

  ghost function Stamped(slots: seq<Slot>, x: nat, now: int, e: Entry): seq<Slot>
    requires x < |slots|
  {
    slots[x := Slot(true, now, e.key, e.value)]
  }

  /** Stamping a slot outside the order with a later clock puts it in front. */
  lemma Front(slots: seq<Slot>, rest: seq<nat>, last: int, x: nat, now: int, e: Entry)
    requires Falling(slots, rest, last) && Complete(slots, rest, x) && x < |slots| && x !in rest && now > last
    ensures Ordered(Stamped(slots, x, now, e), [x] + rest, now)
    ensures View(Stamped(slots, x, now, e), [x] + rest) == [e] + View(slots, rest)
  {
    var order', slots' := [x] + rest, Stamped(slots, x, now, e);
    FrontFalling(slots, rest, last, x, now, e);
    FrontComplete(slots, rest, x, now, e);
    FrontView(slots, rest, x, now, e);
  }

  lemma FrontComplete(slots: seq<Slot>, rest: seq<nat>, x: nat, now: int, e: Entry)
    requires Complete(slots, rest, x) && x < |slots|
    ensures var slots' := Stamped(slots, x, now, e); forall s :: 0 <= s < |slots'| && slots'[s].valid ==> s in [x] + rest
  {
    var slots' := Stamped(slots, x, now, e);
    forall s | 0 <= s < |slots'| && slots'[s].valid ensures s in [x] + rest {
      if s == x { assert ([x] + rest)[0] == s; }
    }
  }

  lemma FrontView(slots: seq<Slot>, rest: seq<nat>, x: nat, now: int, e: Entry)
    requires x < |slots| && x !in rest && forall i :: 0 <= i < |rest| ==> rest[i] < |slots|
    ensures forall i :: 0 <= i < |[x] + rest| ==> ([x] + rest)[i] < |Stamped(slots, x, now, e)|
    ensures View(Stamped(slots, x, now, e), [x] + rest) == [e] + View(slots, rest)
  {
    var slots' := Stamped(slots, x, now, e);
    forall i | 0 <= i < |rest| ensures rest[i] != x {
      assert rest[i] in rest;
    }
    ViewFrame(slots, slots', rest);
    ViewFront(slots', x, rest);
  }

  lemma ViewFrame(slots: seq<Slot>, slots': seq<Slot>, order: seq<nat>)
    requires |slots'| == |slots|
    requires forall i :: 0 <= i < |order| ==> order[i] < |slots| && slots'[order[i]] == slots[order[i]]
    ensures View(slots', order) == View(slots, order)
  {
  }

  lemma ViewFront(slots: seq<Slot>, x: nat, rest: seq<nat>)
    requires x < |slots| && forall i :: 0 <= i < |rest| ==> rest[i] < |slots|
    ensures forall i :: 0 <= i < |[x] + rest| ==> ([x] + rest)[i] < |slots|
    ensures View(slots, [x] + rest) == [Entry(slots[x].key, slots[x].value)] + View(slots, rest)
  {
  }

  lemma FrontFalling(slots: seq<Slot>, rest: seq<nat>, last: int, x: nat, now: int, e: Entry)
    requires Falling(slots, rest, last) && x < |slots| && x !in rest && now > last
    ensures Falling(Stamped(slots, x, now, e), [x] + rest, now)
  {
    var order', slots' := [x] + rest, Stamped(slots, x, now, e);
    forall i | 1 <= i < |order'| ensures order'[i] == rest[i - 1] && slots'[order'[i]] == slots[rest[i - 1]] {
      assert rest[i - 1] in rest;
    }
  }

  lemma CompleteBut(slots: seq<Slot>, order: seq<nat>, x: int)
    requires Complete(slots, order, -1)
    ensures Complete(slots, order, x)
  {
  }

  /** Distinct numbers below n are at most n many. */
  lemma {:induction false} Pigeonhole(a: seq<nat>, n: nat)
    requires forall i :: 0 <= i < |a| ==> a[i] < n
    requires forall i, j :: 0 <= i < j < |a| ==> a[i] != a[j]
    ensures |a| <= n
  {
    if |a| > 0 {
      assert a[0] < n;
      if r :| 0 <= r < |a| && a[r] == n - 1 {
        var b := Others(a, r);
        assert forall i :: 0 <= i < |b| ==> b[i] == a[if i < r then i else i + 1];
        Pigeonhole(b, n - 1);
      } else {
        Pigeonhole(a, n - 1);
      }
    }
  }

  /** A sequence that holds every number below n is at least n long. */
  lemma {:induction false} Onto(a: seq<nat>, n: nat)
    requires forall s :: 0 <= s < n ==> s in a
    ensures |a| >= n
  {
    if n > 0 {
      assert n - 1 in a;
      var r :| 0 <= r < |a| && a[r] == n - 1;
      var b := Others(a, r);
      forall s | 0 <= s < n - 1 ensures s in b {
        assert s in a;
        var q :| 0 <= q < |a| && a[q] == s;
        assert b[if q < r then q else q - 1] == s;
      }
      Onto(b, n - 1);
    }
  }

  ghost function Others(order: seq<nat>, r: nat): seq<nat>
    requires r < |order|
  {
    order[..r] + order[r + 1..]
  }

  lemma RemovedFalling(slots: seq<Slot>, order: seq<nat>, last: int, r: nat)
    requires Falling(slots, order, last) && r < |order|
    ensures Falling(slots, Others(order, r), last) && order[r] !in Others(order, r)
  {
    var rest := Others(order, r);
    forall i | 0 <= i < |rest| ensures rest[i] == order[if i < r then i else i + 1] && rest[i] != order[r] {
      assert i < r ==> slots[order[i]].clk > slots[order[r]].clk;
      assert i >= r ==> slots[order[r]].clk > slots[order[i + 1]].clk;
    }
    forall i, j | 0 <= i < j < |rest| ensures slots[rest[i]].clk > slots[rest[j]].clk {
      var i', j' := if i < r then i else i + 1, if j < r then j else j + 1;
      assert rest[i] == order[i'] && rest[j] == order[j'] && i' < j';
    }
  }

  /** Taking rank r out of the order. */
  lemma Removed(slots: seq<Slot>, order: seq<nat>, last: int, r: nat)
    requires Ordered(slots, order, last) && r < |order|
    ensures Falling(slots, Others(order, r), last) && Complete(slots, Others(order, r), order[r])
    ensures order[r] !in Others(order, r)
    ensures View(slots, Others(order, r)) == Without(View(slots, order), r)
  {
    var rest := Others(order, r);
    RemovedFalling(slots, order, last, r);
    forall s | 0 <= s < |slots| && slots[s].valid && s != order[r] ensures s in rest {
      assert s in order;
      var q :| 0 <= q < |order| && order[q] == s;
      assert rest[if q < r then q else q - 1] == s;
    }
    RemovedView(slots, order, r);
  }

  lemma RemovedView(slots: seq<Slot>, order: seq<nat>, r: nat)
    requires r < |order| && forall i :: 0 <= i < |order| ==> order[i] < |slots|
    ensures forall i :: 0 <= i < |Others(order, r)| ==> Others(order, r)[i] < |slots|
    ensures View(slots, Others(order, r)) == Without(View(slots, order), r)
  {
    var rest := Others(order, r);
    forall i | 0 <= i < |rest| ensures rest[i] == order[if i < r then i else i + 1] {
    }
  }

  /** A use of e that displaces rank r is the list's own step. */
  lemma UseList(l: seq<Entry>, uses: seq<Entry>, n: nat, e: Entry, r: nat)
    requires n > 0 && l == Take(Recency(uses), n) && r < |l|
    requires l[r].key == e.key || (r == n - 1 && forall i :: 0 <= i < |l| ==> l[i].key != e.key)
    ensures [e] + Without(l, r) == Take(Recency(uses + [e]), n)
  {
    hide Recency, Drop;
    UseExtendsHistory(uses, n, e);
    RecencyDistinct(uses);
    if l[r].key == e.key {
      DropAt(l, e.key, r);
    } else {
      assert Without(l, r) == Take(l, n - 1);
    }
  }

  class Cache {
    const objs: array<Slot>
    ghost var order: seq<nat>      // the valid slots, most recently used first
    ghost var uses: seq<Entry>     // every put, and every get that hit, so far
    ghost var last: int            // the latest clock reading

    /** What the cache holds, most recently used first. */
    ghost function Contents(): seq<Entry>
      reads this, objs
      requires Ordered(objs[..], order, last)
    {
      View(objs[..], order)
    }

    /** The slots are the most recently used keys with their latest values, as many as fit. */
    ghost predicate Valid()
      reads this, objs
    {
      objs.Length > 0 && Ordered(objs[..], order, last) && Contents() == Take(Recency(uses), objs.Length)
    }

    /** cache_init. */
    constructor (n: nat)
      requires n > 0
      ensures Valid() && uses == [] && Contents() == [] && last == 0 && objs.Length == n && fresh(objs)
    {
      objs := new Slot[n](_ => Slot(false, 0, "", []));
      order, uses, last := [], [], 0;
    }

    /** cache_find: the slot that holds key, if any. */
    method Find(key: string) returns (s: Option<nat>, ghost r: nat)
      requires Valid()
      ensures s == None ==> forall e :: e in Contents() ==> e.key != key
      ensures s.Some? ==> r < |order| && order[r] == s.value && Contents()[r].key == key
    {
      hide Recency, Take;
      r := 0;
      for i := 0 to objs.Length
        invariant forall j :: 0 <= j < i && objs[j].valid ==> objs[j].key != key
      {
        if objs[i].valid && objs[i].key == key {
          r := Rank(objs[..], order, last, i);
          return Some(i), r;
        }
      }
      s := None;
    }

    /** A use of e whose slot has rank r. */
    ghost method Use(r: nat, now: int, e: Entry, slots0: seq<Slot>)
      requires Ordered(slots0, order, last) && r < |order| && |slots0| == objs.Length > 0 && now > last
      requires View(slots0, order) == Take(Recency(uses), objs.Length)
      requires objs[..] == Stamped(slots0, order[r], now, e)
      requires View(slots0, order)[r].key == e.key ||
               (r == |order| - 1 && |order| == objs.Length && forall i :: 0 <= i < |order| ==> View(slots0, order)[i].key != e.key)
      modifies this
      ensures Valid() && uses == old(uses) + [e] && last == now
    {
      hide Recency, Take, Complete;
      Removed(slots0, order, last, r);
      Front(slots0, Others(order, r), last, order[r], now, e);
      UseList(View(slots0, order), uses, objs.Length, e, r);
      order, uses, last := [order[r]] + Others(order, r), uses + [e], now;
    }

    /** cache_get: a hit returns the latest value and counts as a use; a miss changes nothing. */
    method Get(key: string, now: int) returns (value: Option<seq<int>>)
      requires Valid() && now > last
      modifies this, objs
      ensures Valid()
      ensures value == None <==> forall e :: e in old(Contents()) ==> e.key != key
      ensures value == None ==> Contents() == old(Contents()) && uses == old(uses)
      ensures value.Some? ==> Entry(key, value.value) in old(Contents()) && uses == old(uses) + [Entry(key, value.value)]
      ensures last == if value == None then old(last) else now
    {
      hide Recency, Take;
      var s, r := Find(key);
      if s == None {
        return None;
      }
      ghost var slots0 := objs[..];
      assert Contents()[r] in Contents();
      var o := objs[s.value];
      objs[s.value] := o.(clk := now);
      Use(r, now, Entry(key, o.value), slots0);
      value := Some(o.value);
    }

    /** A use of e in a slot that was not valid. */
    ghost method UseFree(x: nat, now: int, e: Entry, slots0: seq<Slot>)
      requires Ordered(slots0, order, last) && x < |slots0| == objs.Length && !slots0[x].valid && now > last
      requires View(slots0, order) == Take(Recency(uses), objs.Length) && |order| < objs.Length
      requires objs[..] == Stamped(slots0, x, now, e)
      requires forall i :: 0 <= i < |order| ==> View(slots0, order)[i].key != e.key
      modifies this
      ensures Valid() && uses == old(uses) + [e] && last == now
    {
      hide Recency, Complete, Drop;
      assert x !in order;
      CompleteBut(slots0, order, x);
      Front(slots0, order, last, x, now, e);
      UseExtendsHistory(uses, objs.Length, e);
      order, uses, last := [x] + order, uses + [e], now;
    }

    /** A slot is free, so fewer slots are in use than there are. */
    lemma RoomLeft(x: nat)
      requires Ordered(objs[..], order, last) && x < objs.Length && !objs[x].valid
      ensures |order| < objs.Length
    {
      Pigeonhole([x] + order, objs.Length);
    }

    /** No slot is free, so all are in use, and the one with the least stamp is the last in order. */
    lemma AllInUse(v: nat)
      requires Ordered(objs[..], order, last) && (forall s :: 0 <= s < objs.Length ==> objs[s].valid)
      requires v < objs.Length && (forall s :: 0 <= s < objs.Length ==> objs[v].clk <= objs[s].clk)
      ensures |order| == objs.Length > 0 && order[|order| - 1] == v
    {
      Onto(order, objs.Length);
      Pigeonhole(order, objs.Length);
      var r := Rank(objs[..], order, last, v);
    }

    /** The first slot that is not valid. */
    method FreeSlot() returns (s: Option<nat>)
      ensures s == None ==> forall i :: 0 <= i < objs.Length ==> objs[i].valid
      ensures s.Some? ==> s.value < objs.Length && !objs[s.value].valid
    {
      for i := 0 to objs.Length
        invariant forall j :: 0 <= j < i ==> objs[j].valid
      {
        if !objs[i].valid {
          return Some(i);
        }
      }
      s := None;
    }

    /** The slot with the smallest stamp. */
    method Victim() returns (v: nat)
      requires objs.Length > 0
      ensures v < objs.Length && forall s :: 0 <= s < objs.Length ==> objs[v].clk <= objs[s].clk
    {
      v := 0;
      for i := 1 to objs.Length
        invariant v < objs.Length && forall s :: 0 <= s < i ==> objs[v].clk <= objs[s].clk
      {
        if objs[i].clk < objs[v].clk {
          v := i;
        }
      }
    }

    /** cache_put: the key is now the most recently used, with this value. */
    method Put(key: string, value: seq<int>, now: int)
      requires Valid() && now > last
      modifies this, objs
      ensures Valid() && uses == old(uses) + [Entry(key, value)] && last == now
    {
      hide Recency, Take, Complete;
      var e := Entry(key, value);
      ghost var slots0 := objs[..];
      var s, r := Find(key);
      if s.Some? {
        objs[s.value] := objs[s.value].(value := value, clk := now);
        Use(r, now, e, slots0);
        return;
      }
      forall i | 0 <= i < |order| ensures View(slots0, order)[i].key != key {
        assert View(slots0, order)[i] in Contents();
      }
      PutNew(key, value, now);
    }

    /** The second half of cache_put, for a key that is not there: a free slot, or the victim's. */
    method PutNew(key: string, value: seq<int>, now: int)
      requires Valid() && now > last && forall i :: 0 <= i < |order| ==> Contents()[i].key != key
      modifies this, objs
      ensures Valid() && uses == old(uses) + [Entry(key, value)] && last == now
    {
      hide Recency, Take, Complete, Falling;
      var e := Entry(key, value);
      ghost var slots0 := objs[..];
      var s := FreeSlot();
      if s.Some? {
        RoomLeft(s.value);
        objs[s.value] := Slot(true, now, key, value);
        UseFree(s.value, now, e, slots0);
        return;
      }
      var v := Victim();
      AllInUse(v);
      objs[v] := objs[v].(clk := now, key := key, value := value);
      Use(|order| - 1, now, e, slots0);
    }
  }

  // ---- any sequence of calls ----

  datatype Call = GetCall(key: string) | PutCall(key: string, value: seq<int>)

  /** What the list holds under the key. */
  ghost function Lookup(l: seq<Entry>, key: string): Option<seq<int>> {
    if l == [] then None else if l[0].key == key then Some(l[0].value) else Lookup(l[1..], key)
  }

  /** A call on the move-to-front list of at most n entries. */
  ghost function Called(l: seq<Entry>, n: nat, call: Call): seq<Entry>
    requires n > 0
  {
    match call
    case PutCall(key, value) => Used(l, n, Entry(key, value))
    case GetCall(key) => (match Lookup(l, key) case None => l case Some(v) => Used(l, n, Entry(key, v)))
  }

  ghost function Answer(l: seq<Entry>, call: Call): Option<seq<int>> {
    if call.GetCall? then Lookup(l, call.key) else None
  }

  ghost function CalledAll(l: seq<Entry>, n: nat, calls: seq<Call>): seq<Entry>
    requires n > 0
    decreases |calls|
  {
    if calls == [] then l else CalledAll(Called(l, n, calls[0]), n, calls[1..])
  }

  ghost function Answers(l: seq<Entry>, n: nat, calls: seq<Call>): seq<Option<seq<int>>>
    requires n > 0
    decreases |calls|
  {
    if calls == [] then [] else [Answer(l, calls[0])] + Answers(Called(l, n, calls[0]), n, calls[1..])
  }

  lemma {:induction false} LookupIs(l: seq<Entry>, key: string)
    ensures Lookup(l, key) == None <==> forall e :: e in l ==> e.key != key
    ensures Distinct(l) ==> forall v :: Entry(key, v) in l ==> Lookup(l, key) == Some(v)
  {
    if l != [] {
      LookupIs(l[1..], key);
      assert forall e :: e in l <==> e == l[0] || e in l[1..];
    }
  }

  lemma TakeDistinct(l: seq<Entry>, n: nat)
    requires Distinct(l)
    ensures Distinct(Take(l, n))
  {
  }

  /** The slots of a cache hold each key once. */
  lemma ContentsDistinct(c: Cache)
    requires c.Valid()
    ensures Distinct(c.Contents())
  {
    hide Take;
    RecencyDistinct(c.uses);
    TakeDistinct(Recency(c.uses), c.objs.Length);
  }

  /** One call, as on the move-to-front list. */
  method Perform(c: Cache, call: Call, now: int) returns (answer: Option<seq<int>>)
    requires c.Valid() && now > c.last
    modifies c, c.objs
    ensures c.Valid() && c.last <= now
    ensures c.Contents() == Called(old(c.Contents()), c.objs.Length, call) && answer == Answer(old(c.Contents()), call)
  {
    hide Recency, Take, Used, Ordered;
    ghost var l, n := c.Contents(), c.objs.Length;
    ContentsDistinct(c);
    LookupIs(l, call.key);
    match call {
      case GetCall(key) =>
        ghost var uses := c.uses;
        answer := c.Get(key, now);
        if answer.Some? {
          UseExtendsHistory(uses, n, Entry(key, answer.value));
        }
      case PutCall(key, value) =>
        UseExtendsHistory(c.uses, n, Entry(key, value));
        c.Put(key, value, now);
        answer := None;
    }
  }

  /**
   Any sequence of gets and puts under a strictly increasing clock: the cache answers and ends as the
   move-to-front list of n entries does, holding each key once, the most recently used ones.
   */
  method Session(c: Cache, calls: seq<Call>, clock: seq<int>) returns (answers: seq<Option<seq<int>>>)
    requires c.Valid() && |clock| == |calls|
    requires forall i :: 0 <= i < |clock| ==> clock[i] > c.last
    requires forall i, j :: 0 <= i < j < |clock| ==> clock[i] < clock[j]
    modifies c, c.objs
    ensures c.Valid() && c.Contents() == Take(Recency(c.uses), c.objs.Length) && Distinct(c.Contents())
    ensures c.Contents() == CalledAll(old(c.Contents()), c.objs.Length, calls)
    ensures answers == Answers(old(c.Contents()), c.objs.Length, calls)
  {
    hide Recency, Take, Used, Ordered, Called, Answer;
    answers := [];
    var i := 0;
    assert calls[0..] == calls;
    while i < |calls|
      invariant 0 <= i <= |calls| && c.Valid() && (forall j :: i <= j < |clock| ==> clock[j] > c.last)
      invariant CalledAll(c.Contents(), c.objs.Length, calls[i..]) == CalledAll(old(c.Contents()), c.objs.Length, calls)
      invariant answers + Answers(c.Contents(), c.objs.Length, calls[i..]) == Answers(old(c.Contents()), c.objs.Length, calls)
    {
      assert calls[i..][0] == calls[i] && calls[i..][1..] == calls[i + 1..];
      var a := Perform(c, calls[i], clock[i]);
      answers := answers + [a];
      i := i + 1;
    }
    ContentsDistinct(c);
  }

  /** From a new cache, the reference is the list that starts empty. */
  method FreshSession(n: nat, calls: seq<Call>, clock: seq<int>) returns (c: Cache, answers: seq<Option<seq<int>>>)
    requires n > 0 && |clock| == |calls| && forall i :: 0 <= i < |clock| ==> clock[i] > 0
    requires forall i, j :: 0 <= i < j < |clock| ==> clock[i] < clock[j]
    ensures fresh(c) && c.Valid() && c.objs.Length == n
    ensures c.Contents() == CalledAll([], n, calls) && answers == Answers([], n, calls)
  {
    c := new Cache(n);
    answers := Session(c, calls, clock);
  }
}
