/**
 * What the memtable means: the entries of level 0 in order, which is by
 * key with the newest of equal keys first. Each operation is a linear scan.
 */
module Memtable {
  import opened Wrappers
  import opened ByteKeys

  datatype Entry = Entry(key: Bytes, value: Bytes)
  predicate Below(e: Entry, k: Bytes) { Compare(e.key, k) < 0 }

  /** Insert never overwrites: the new entry goes before the first key >= k. */
  function Inserted(es: seq<Entry>, k: Bytes, v: Bytes): seq<Entry> {
    if es != [] && Below(es[0], k) then [es[0]] + Inserted(es[1..], k, v) else [Entry(k, v)] + es
  }

  /** The first entry whose key is >= k. */
  function FirstFrom(es: seq<Entry>, k: Bytes): Option<Entry> {
    if es == [] then None else if Below(es[0], k) then FirstFrom(es[1..], k) else Some(es[0])
  }

  function Removed(es: seq<Entry>, k: Bytes): Option<seq<Entry>> {
    if es == [] then None
    else if Below(es[0], k) then
      (match Removed(es[1..], k)
       case None => None
       case Some(rest) => Some([es[0]] + rest))
    else if es[0].key == k then Some(es[1..])
    else None
  }

  function Overwritten(es: seq<Entry>, k: Bytes, v: Bytes): seq<Entry> {
    if es == [] then [Entry(k, v)]
    else if Below(es[0], k) then [es[0]] + Overwritten(es[1..], k, v)
    else if es[0].key == k then [Entry(k, v)] + es[1..]
    else [Entry(k, v)] + es
  }

  ghost predicate Sorted(es: seq<Entry>) {
    forall i, j :: 0 <= i < j < |es| ==> Rank(es[i].key) <= Rank(es[j].key)
  }

  /** The values stored under k, newest first. */
  function Versions(es: seq<Entry>, k: Bytes): seq<Bytes> {
    if es == [] then []
    else (if es[0].key == k then [es[0].value] else []) + Versions(es[1..], k)
  }

  // ---- what a scan does, in terms of where it stops ----

  ghost predicate AllBelow(es: seq<Entry>, k: Bytes) {
    forall i :: 0 <= i < |es| ==> Below(es[i], k)
  }

  /** The scan for k stops between a and b. */
  ghost predicate Split(a: seq<Entry>, b: seq<Entry>, k: Bytes) {
    AllBelow(a, k) && (b != [] ==> !Below(b[0], k))
  }

  /** One entry less before the split. */
  lemma SplitTail(a: seq<Entry>, b: seq<Entry>, k: Bytes)
    requires Split(a, b, k) && a != []
    ensures Split(a[1..], b, k) && Below(a[0], k)
    ensures (a + b)[0] == a[0] && (a + b)[1..] == a[1..] + b
  {
    hide Below;
  }

  lemma {:induction false} InsertAtSplit(a: seq<Entry>, b: seq<Entry>, k: Bytes, v: Bytes)
    requires Split(a, b, k)
    ensures Inserted(a + b, k, v) == a + [Entry(k, v)] + b
  {
    hide Below;
    if a == [] {
      assert a + b == b && a + [Entry(k, v)] + b == [Entry(k, v)] + b;
    } else {
      SplitTail(a, b, k);
      InsertAtSplit(a[1..], b, k, v);
      assert [a[0]] + (a[1..] + [Entry(k, v)] + b) == a + [Entry(k, v)] + b;
    }
  }

  lemma {:induction false} FindAtSplit(a: seq<Entry>, b: seq<Entry>, k: Bytes)
    requires Split(a, b, k)
    ensures FirstFrom(a + b, k) == if b == [] then None else Some(b[0])
  {
    hide Below;
    if a == [] {
      assert a + b == b;
    } else {
      SplitTail(a, b, k);
      FindAtSplit(a[1..], b, k);
    }
  }

  lemma {:induction false} RemoveAtSplit(a: seq<Entry>, b: seq<Entry>, k: Bytes)
    requires Split(a, b, k)
    ensures Removed(a + b, k) == if b != [] && b[0].key == k then Some(a + b[1..]) else None
  {
    hide Below;
    if a == [] {
      assert a + b == b;
      assert b != [] ==> a + b[1..] == b[1..];
    } else {
      SplitTail(a, b, k);
      RemoveAtSplit(a[1..], b, k);
      assert b != [] ==> [a[0]] + (a[1..] + b[1..]) == a + b[1..];
    }
  }

  lemma {:induction false} OverwriteAtSplit(a: seq<Entry>, b: seq<Entry>, k: Bytes, v: Bytes)
    requires Split(a, b, k)
    ensures Overwritten(a + b, k, v) == a + [Entry(k, v)] + if b != [] && b[0].key == k then b[1..] else b
  {
    hide Below;
    var rest := if b != [] && b[0].key == k then b[1..] else b;
    if a == [] {
      assert a + b == b && a + [Entry(k, v)] + rest == [Entry(k, v)] + rest;
    } else {
      SplitTail(a, b, k);
      OverwriteAtSplit(a[1..], b, k, v);
      assert [a[0]] + (a[1..] + [Entry(k, v)] + rest) == a + [Entry(k, v)] + rest;
    }
  }

  /** Where the scan for k stops. */
  ghost function SplitAt(es: seq<Entry>, k: Bytes): (n: nat)
    ensures n <= |es|
  {
    if es == [] || !Below(es[0], k) then 0 else 1 + SplitAt(es[1..], k)
  }

  lemma {:induction false} StopsThere(es: seq<Entry>, k: Bytes)
    ensures SplitAt(es, k) < |es| ==> !Below(es[SplitAt(es, k)], k)
    ensures forall i :: 0 <= i < SplitAt(es, k) ==> Below(es[i], k)
  {
    hide Below;
    if es != [] && Below(es[0], k) {
      StopsThere(es[1..], k);
      assert forall i :: 0 < i < |es| ==> es[i] == es[1..][i - 1];
    }
  }

  lemma SplitThere(es: seq<Entry>, k: Bytes)
    ensures Split(es[..SplitAt(es, k)], es[SplitAt(es, k)..], k)
    ensures es == es[..SplitAt(es, k)] + es[SplitAt(es, k)..]
  {
    hide Below, SplitAt;
    StopsThere(es, k);
  }

  // ---- what the scans mean, key by key ----

  lemma {:induction false} VersionsConcat(a: seq<Entry>, b: seq<Entry>, k: Bytes)
    ensures Versions(a + b, k) == Versions(a, k) + Versions(b, k)
  {
    if a == [] {
      assert a + b == b;
    } else {
      assert (a + b)[1..] == a[1..] + b;
      VersionsConcat(a[1..], b, k);
    }
  }

  lemma {:induction false} NoVersions(es: seq<Entry>, k: Bytes)
    requires forall i :: 0 <= i < |es| ==> es[i].key != k
    ensures Versions(es, k) == []
  {
    if es != [] {
      NoVersions(es[1..], k);
    }
  }

  lemma BelowDiffers(a: seq<Entry>, b: seq<Entry>, k: Bytes)
    requires Split(a, b, k)
    ensures Versions(a, k) == []
  {
    forall i | 0 <= i < |a| ensures a[i].key != k {
      CompareRank(a[i].key, k);
    }
    NoVersions(a, k);
  }

  lemma AboveDiffers(b: seq<Entry>, k: Bytes)
    requires Sorted(b) && (b != [] ==> !Below(b[0], k) && b[0].key != k)
    ensures Versions(b, k) == []
  {
    forall i | 0 <= i < |b| ensures b[i].key != k {
      CompareRank(b[0].key, k);
      CompareRank(b[i].key, k);
    }
    NoVersions(b, k);
  }

  /** The three parts of an edited sequence: before, at and after the cut. */
  lemma VersionsThrough(a: seq<Entry>, e: Entry, b: seq<Entry>, k: Bytes)
    ensures Versions(a + [e] + b, k)
         == Versions(a, k) + (if e.key == k then [e.value] else []) + Versions(b, k)
  {
    VersionsConcat(a + [e], b, k);
    VersionsConcat(a, [e], k);
    assert Versions([e][1..], k) == [];
  }

  /** Inserting puts one version in front of k's and leaves every other key alone. */
  lemma InsertedVersions(es: seq<Entry>, k: Bytes, v: Bytes, other: Bytes)
    ensures Versions(Inserted(es, k, v), other)
         == if other == k then [v] + Versions(es, k) else Versions(es, other)
  {
    hide *;
    SplitThere(es, k);
    var a, b := es[..SplitAt(es, k)], es[SplitAt(es, k)..];
    InsertAtSplit(a, b, k, v);
    VersionsConcat(a, b, other);
    VersionsThrough(a, Entry(k, v), b, other);
    if other == k {
      BelowDiffers(a, b, k);
    }
  }

  /** Where the scan stops, on sorted entries: k's versions all lie there. */
  lemma VersionsAtSplit(a: seq<Entry>, b: seq<Entry>, k: Bytes)
    requires Sorted(a + b) && Split(a, b, k)
    ensures Versions(a, k) == [] && Versions(a + b, k) == Versions(b, k)
    ensures b != [] && b[0].key == k ==> Versions(b, k) == [b[0].value] + Versions(b[1..], k)
    ensures Versions(b, k) != [] <==> b != [] && b[0].key == k
  {
    hide Rank, Compare, Below;
    BelowDiffers(a, b, k);
    VersionsConcat(a, b, k);
    if !(b != [] && b[0].key == k) {
      assert b == (a + b)[|a|..];
      SortedTail(a + b, |a|);
      AboveDiffers(b, k);
    }
  }

  /** The head of a sequence counts for its own key only. */
  lemma VersionsHead(b: seq<Entry>, k: Bytes)
    requires b != []
    ensures Versions(b, k) == (if b[0].key == k then [b[0].value] else []) + Versions(b[1..], k)
  {
  }

  lemma SortedTail(es: seq<Entry>, n: nat)
    requires Sorted(es) && n <= |es|
    ensures Sorted(es[n..])
  {
  }

  /** Removing takes the newest version of k away, and fails exactly when there is none. */
  lemma RemovedVersions(es: seq<Entry>, k: Bytes, other: Bytes)
    requires Sorted(es)
    ensures Removed(es, k).None? <==> Versions(es, k) == []
    ensures Removed(es, k).Some? ==>
              (Versions(Removed(es, k).value, other)
            == if other == k then Versions(es, k)[1..] else Versions(es, other))
  {
    hide *;
    SplitThere(es, k);
    var a, b := es[..SplitAt(es, k)], es[SplitAt(es, k)..];
    RemoveAtSplit(a, b, k);
    VersionsAtSplit(a, b, k);
    if b != [] && b[0].key == k {
      VersionsConcat(a, b[1..], other);
      VersionsConcat(a, b, other);
      VersionsHead(b, other);
    }
  }

  /** Updating replaces the newest version of k, or gives k its first. */
  lemma OverwrittenVersions(es: seq<Entry>, k: Bytes, v: Bytes, other: Bytes)
    requires Sorted(es)
    ensures Versions(Overwritten(es, k, v), other)
         == if other != k then Versions(es, other)
            else if Versions(es, k) == [] then [v]
            else [v] + Versions(es, k)[1..]
  {
    hide *;
    SplitThere(es, k);
    var a, b := es[..SplitAt(es, k)], es[SplitAt(es, k)..];
    var rest := if b != [] && b[0].key == k then b[1..] else b;
    OverwriteAtSplit(a, b, k, v);
    VersionsAtSplit(a, b, k);
    VersionsThrough(a, Entry(k, v), rest, other);
    VersionsConcat(a, b, other);
    if b != [] {
      VersionsHead(b, other);
    }
  }

  /** A delete undoes the insert before it. */
  lemma InsertThenRemove(es: seq<Entry>, k: Bytes, v: Bytes)
    ensures Removed(Inserted(es, k, v), k) == Some(es)
  {
    hide Inserted, Removed, SplitAt, Rank, Compare;
    SplitThere(es, k);
    var a, b := es[..SplitAt(es, k)], es[SplitAt(es, k)..];
    InsertAtSplit(a, b, k, v);
    CompareRank(k, k);
    var c := [Entry(k, v)] + b;
    assert a + [Entry(k, v)] + b == a + c && c[1..] == b;
    RemoveAtSplit(a, c, k);
  }

  lemma SortedThrough(a: seq<Entry>, e: Entry, b: seq<Entry>)
    requires Sorted(a) && Sorted(b)
    requires forall i :: 0 <= i < |a| ==> Rank(a[i].key) <= Rank(e.key)
    requires forall i :: 0 <= i < |b| ==> Rank(e.key) <= Rank(b[i].key)
    ensures Sorted(a + [e] + b)
  {
    hide Rank;
    var s := a + [e] + b;
    forall i, j | 0 <= i < j < |s| ensures Rank(s[i].key) <= Rank(s[j].key) {
    }
  }

  lemma SortedWithout(es: seq<Entry>, n: nat)
    requires Sorted(es) && n < |es|
    ensures Sorted(es[..n] + es[n + 1..])
  {
    hide Rank;
  }

  /** The two sides of a split, and k between them. */
  lemma SortedSides(es: seq<Entry>, k: Bytes)
    requires Sorted(es)
    ensures var n := SplitAt(es, k);
      && Sorted(es[..n]) && Sorted(es[n..])
      && (forall i :: 0 <= i < n ==> Rank(es[..n][i].key) <= Rank(k))
      && (forall i :: 0 <= i < |es| - n ==> Rank(k) <= Rank(es[n..][i].key))
  {
    hide Rank, Compare, SplitAt;
    SplitThere(es, k);
    var n := SplitAt(es, k);
    var a, b := es[..n], es[n..];
    forall i | 0 <= i < n ensures Rank(a[i].key) <= Rank(k) {
      CompareRank(a[i].key, k);
    }
    forall i | 0 <= i < |b| ensures Rank(k) <= Rank(b[i].key) {
      CompareRank(b[0].key, k);
    }
  }

  lemma InsertedSorted(es: seq<Entry>, k: Bytes, v: Bytes)
    requires Sorted(es)
    ensures Sorted(Inserted(es, k, v))
  {
    hide *;
    var n := SplitAt(es, k);
    SplitThere(es, k);
    SortedSides(es, k);
    InsertAtSplit(es[..n], es[n..], k, v);
    SortedThrough(es[..n], Entry(k, v), es[n..]);
  }

  lemma OverwrittenSorted(es: seq<Entry>, k: Bytes, v: Bytes)
    requires Sorted(es)
    ensures Sorted(Overwritten(es, k, v))
  {
    hide *;
    var n := SplitAt(es, k);
    SplitThere(es, k);
    SortedSides(es, k);
    OverwriteAtSplit(es[..n], es[n..], k, v);
    if n < |es| {
      SortedTail(es[n..], 1);
      SortedThrough(es[..n], Entry(k, v), es[n..][1..]);
    }
    SortedThrough(es[..n], Entry(k, v), es[n..]);
  }

  lemma RemovedSorted(es: seq<Entry>, k: Bytes)
    requires Sorted(es)
    ensures Removed(es, k).Some? ==> Sorted(Removed(es, k).value)
  {
    hide *;
    var n := SplitAt(es, k);
    SplitThere(es, k);
    RemoveAtSplit(es[..n], es[n..], k);
    if n < |es| {
      SortedWithout(es, n);
      assert es[n..][1..] == es[n + 1..];
    }
  }

  /** Every operation keeps the order. */
  lemma StaysSorted(es: seq<Entry>, k: Bytes, v: Bytes)
    requires Sorted(es)
    ensures Sorted(Inserted(es, k, v)) && Sorted(Overwritten(es, k, v))
    ensures Removed(es, k).Some? ==> Sorted(Removed(es, k).value)
  {
    hide *;
    InsertedSorted(es, k, v);
    OverwrittenSorted(es, k, v);
    RemovedSorted(es, k);
  }

  /** The scan finds nothing exactly when every key is smaller. */
  lemma {:induction false} FirstFromNone(es: seq<Entry>, k: Bytes)
    requires Sorted(es)
    ensures FirstFrom(es, k).None? <==> forall i :: 0 <= i < |es| ==> Rank(es[i].key) < Rank(k)
  {
    hide Rank;
    if es != [] {
      CompareRank(es[0].key, k);
      SortedTail(es, 1);
      FirstFromNone(es[1..], k);
      assert forall i :: 0 < i < |es| ==> es[i] == es[1..][i - 1];
    }
  }

  /** On sorted entries the scan finds the newest version of k, if k has one, and a greater key otherwise. */
  lemma FirstFromMeaning(es: seq<Entry>, k: Bytes)
    requires Sorted(es)
    ensures Versions(es, k) != [] ==> FirstFrom(es, k) == Some(Entry(k, Versions(es, k)[0]))
    ensures Versions(es, k) == [] && FirstFrom(es, k).Some? ==> Rank(FirstFrom(es, k).value.key) > Rank(k)
    ensures FirstFrom(es, k).Some? ==>
      (exists i :: 0 <= i < |es| && es[i] == FirstFrom(es, k).value &&
                   forall j :: 0 <= j < |es| ==> (j < i <==> Rank(es[j].key) < Rank(k)))
  {
    hide FirstFrom, Versions, Rank, Sorted, SplitAt, Compare;
    SplitThere(es, k);
    var a, b := es[..SplitAt(es, k)], es[SplitAt(es, k)..];
    FindAtSplit(a, b, k);
    VersionsAtSplit(a, b, k);
    if b != [] {
      CompareRank(b[0].key, k);
      assert es[|a|] == b[0];
      forall j | 0 <= j < |es| ensures j < |a| <==> Rank(es[j].key) < Rank(k) {
        if j < |a| {
          assert Below(a[j], k);
          CompareRank(a[j].key, k);
        } else {
          SortedAt(es, |a|, j);
        }
      }
    }
  }

  lemma SortedAt(es: seq<Entry>, i: nat, j: nat)
    requires Sorted(es) && i <= j < |es|
    ensures Rank(es[i].key) <= Rank(es[j].key)
  {
  }
}
