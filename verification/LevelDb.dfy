/** db.go: a memtable behind a write-ahead log, and its recovery. */
module LevelDb {
  import opened Wrappers
  import opened ByteKeys
  import opened Memtable
  import opened Wal
  import SkipLevels
  import SkipList

  // ---- histories ----

  /** One operation on the memtable; a delete that finds nothing changes nothing. */
  function Apply(es: seq<Entry>, op: Op): seq<Entry> {
    match op
    case Put(k, v) => Inserted(es, k, v)
    case Delete(k) => (match Removed(es, k) case None => es case Some(rest) => rest)
  }

  function ApplyAll(es: seq<Entry>, ops: seq<Op>): seq<Entry> {
    if ops == [] then es else Apply(ApplyAll(es, ops[..|ops| - 1]), ops[|ops| - 1])
  }

  lemma ApplyMore(es: seq<Entry>, ops: seq<Op>, op: Op)
    ensures ApplyAll(es, ops + [op]) == Apply(ApplyAll(es, ops), op)
  {
    assert (ops + [op])[..|ops|] == ops;
  }

  /** Key k's values as a stack: a put pushes, a delete pops. */
  function Stack(ops: seq<Op>, k: Bytes): seq<Bytes> {
    if ops == [] then []
    else
      var below := Stack(ops[..|ops| - 1], k);
      match ops[|ops| - 1]
      case Put(key, v) => if key == k then [v] + below else below
      case Delete(key) => if key == k && below != [] then below[1..] else below
  }

  lemma {:induction false} HistorySorted(ops: seq<Op>)
    ensures Sorted(ApplyAll([], ops))
  {
    hide Rank, Inserted, Removed, Overwritten;
    if ops != [] {
      var was, op := ApplyAll([], ops[..|ops| - 1]), ops[|ops| - 1];
      HistorySorted(ops[..|ops| - 1]);
      StaysSorted(was, op.key, []);
      match op
      case Put(k, v) => StaysSorted(was, k, v);
      case Delete(k) =>
    }
  }

  /** After any history, failed deletes included, the versions of a key are its stack. */
  lemma {:induction false} HistoryVersions(ops: seq<Op>, k: Bytes)
    ensures Versions(ApplyAll([], ops), k) == Stack(ops, k)
  {
    hide Rank, Inserted, Removed, Overwritten, Versions, Sorted;
    if ops == [] {
      NoVersions([], k);
    } else {
      var was := ApplyAll([], ops[..|ops| - 1]);
      HistoryVersions(ops[..|ops| - 1], k);
      HistorySorted(ops[..|ops| - 1]);
      match ops[|ops| - 1]
      case Put(key, v) => InsertedVersions(was, key, v, k);
      case Delete(key) => RemovedVersions(was, key, k);
    }
  }

  // ---- lookups ----

  function Value(e: Option<Entry>): Option<Bytes> {
    match e
    case None => None
    case Some(x) => Some(x.value)
  }

  /** What a lookup of k should answer: its newest version, if it has any. */
  function Newest(ops: seq<Op>, k: Bytes): Option<Bytes> {
    if Stack(ops, k) == [] then None else Some(Stack(ops, k)[0])
  }

  /** Get answers with the newest version of k exactly when k is stored or no greater key is. */
  lemma GetRightExactly(ops: seq<Op>, k: Bytes)
    ensures Value(FirstFrom(ApplyAll([], ops), k)) == Newest(ops, k)
       <==> Stack(ops, k) != [] || forall e :: e in ApplyAll([], ops) ==> Rank(e.key) < Rank(k)
  {
    hide Rank, FirstFrom, Versions, ApplyAll, Stack, Sorted;
    var es := ApplyAll([], ops);
    HistorySorted(ops);
    HistoryVersions(ops, k);
    FirstFromMeaning(es, k);
    FirstFromNone(es, k);
    assert forall i :: 0 <= i < |es| ==> es[i] in es;
  }

  /** Storing 2 and looking 1 up gives 2's value. */
  lemma GetFindsAnotherKey()
    ensures var r := Value(FirstFrom(ApplyAll([], [Put([2], [7])]), [1])); r.Some? && r.value == [7]
    ensures Newest([Put([2], [7])], [1]) == None
  {
    var ops := [Put([2], [7])];
    assert ops[..0] == [];
    assert Stack([], [1]) == [];
  }

  /** A delete uncovers the value that the newest put covered. */
  lemma DeleteUncovers(ops: seq<Op>, k: Bytes, v: Bytes)
    ensures ApplyAll([], ops + [Put(k, v), Delete(k)]) == ApplyAll([], ops)
  {
    hide Inserted, Removed;
    assert ops + [Put(k, v), Delete(k)] == (ops + [Put(k, v)]) + [Delete(k)];
    ApplyMore([], ops + [Put(k, v)], Delete(k));
    ApplyMore([], ops, Put(k, v));
    InsertThenRemove(ApplyAll([], ops), k, v);
  }

  // ---- reading the file ----

  /** io.ReadFull: n bytes, or failure if fewer are left. */
  method ReadFull(file: Bytes, at: nat, n: nat) returns (ok: bool, buf: Bytes, next: nat)
    requires at <= |file|
    ensures ok <==> at + n <= |file|
    ensures at <= next <= |file|
    ensures ok ==> next == at + n && buf == file[at..at + n]
  {
    if at + n <= |file| {
      return true, file[at..at + n], at + n;
    }
    return false, [], |file|;
  }

  lemma SliceOfRest(file: Bytes, at: nat, a: nat, b: nat)
    requires a <= b && at + b <= |file|
    ensures file[at..][a..b] == file[at + a..at + b]
  {
  }

  datatype Frame = Frame(op: int, key: Bytes, value: Bytes)

  ghost function FrameOp(f: Frame): Option<Op> {
    if f.op == OP_PUT then Some(Put(f.key, f.value))
    else if f.op == OP_DELETE then Some(Delete(f.key))
    else None
  }

  /** The reads of one round of the recovery loop, past the operation byte check for the end of file. */
  method ReadRecord(file: Bytes, at: nat) returns (ok: bool, f: Frame, next: nat)
    requires at < |file|
    ensures at < next <= |file|
    ensures ok <==> Next(file[at..]).Record?
    ensures ok ==> Next(file[at..]) == Record(FrameOp(f), next - at)
  {
    hide DecodeUint32;
    var op := file[at];
    f := Frame(op, [], []);
    var keyLenBuf, key;
    ok, keyLenBuf, next := ReadFull(file, at + 1, 4);
    if !ok { return; }
    SliceOfRest(file, at, 1, 5);
    var keyLen := DecodeUint32(keyLenBuf);
    var valueLen := 0;
    if op == OP_PUT {
      var valueLenBuf;
      ok, valueLenBuf, next := ReadFull(file, next, 4);
      if !ok { return; }
      SliceOfRest(file, at, 5, 9);
      valueLen := DecodeUint32(valueLenBuf);
    }
    ghost var head := next - at;
    ok, key, next := ReadFull(file, next, keyLen);
    if !ok { return; }
    SliceOfRest(file, at, head, head + keyLen);
    var value: Bytes := [];
    if op == OP_PUT {
      ok, value, next := ReadFull(file, next, valueLen);
      if !ok { return; }
      SliceOfRest(file, at, head + keyLen, head + keyLen + valueLen);
    }
    f := Frame(op, key, value);
  }

  /** One more operation, in the memtable and in the log. */
  lemma OneMore(history: seq<Op>, before: Bytes, op: Op)
    ensures ApplyAll([], history + [op]) == Apply(ApplyAll([], history), op)
    ensures before + EncodeAll(history) + Encode(op) == before + EncodeAll(history + [op])
  {
    hide Encode, Apply, EncodeAll, ApplyAll;
    ApplyMore([], history, op);
    EncodeAppend(history, [op]);
    EncodeOne(op);
    assert before + EncodeAll(history) + Encode(op) == before + (EncodeAll(history) + Encode(op));
  }

  class Db {
    const entries: SkipList.List
    const wal: Log
    /** What the log held before, and every operation since. */
    ghost const before: Bytes
    ghost var history: seq<Op>

    ghost predicate Valid()
      reads this, entries, wal
    {
      && entries.Valid()
      && entries.Entries0() == ApplyAll([], history)
      && wal.bytes == before + EncodeAll(history)
    }

    /** NewLevelDb: an empty memtable on a log that may hold records, and possibly a first pair. */
    constructor (log: Log, first: Option<Entry>, h: int)
      requires 1 <= h <= SkipLevels.MAX_LEVEL
      modifies log
      ensures Valid() && fresh(entries) && wal == log && before == old(log.bytes)
      ensures history == match first case None => [] case Some(e) => [Op.Put(e.key, e.value)]
    {
      entries := new SkipList.List();
      wal := log;
      before := log.bytes;
      history := [];
      new;
      if first.Some? {
        wal.Write(OP_PUT, first.value.key, first.value.value);
        entries.Insert(first.value.key, first.value.value, h);
        history := [Op.Put(first.value.key, first.value.value)];
        EncodeOne(history[0]);
        ApplyMore([], [], history[0]);
        assert [] + history == history;
      }
    }

    method Put(key: Bytes, value: Bytes, h: int)
      requires Valid() && 1 <= h <= SkipLevels.MAX_LEVEL
      modifies this, entries, wal
      ensures Valid() && history == old(history) + [Op.Put(key, value)]
    {
      hide Encode, Inserted;
      OneMore(history, before, Op.Put(key, value));
      wal.Write(OP_PUT, key, value);
      entries.Insert(key, value, h);
      history := history + [Op.Put(key, value)];
    }

    /** The record is written even when the key is then not found. */
    method Delete(key: Bytes) returns (ok: bool)
      requires Valid()
      modifies this, entries, wal
      ensures Valid() && history == old(history) + [Op.Delete(key)]
      ensures ok <==> Stack(old(history), key) != []
    {
      hide Encode, Removed, Stack, Versions;
      HistorySorted(history);
      HistoryVersions(history, key);
      RemovedVersions(entries.Entries0(), key, key);
      OneMore(history, before, Op.Delete(key));
      wal.Write(OP_DELETE, key, []);
      ok := entries.Delete(key);
      history := history + [Op.Delete(key)];
    }

    /** The value of the first key >= key. */
    method Get(key: Bytes) returns (r: Option<Bytes>)
      requires Valid()
      ensures r == Value(FirstFrom(ApplyAll([], history), key))
    {
      var node := entries.Search(key);
      if node == SkipLevels.NIL {
        return None;
      }
      return Some(entries.nodes[node].value);
    }

    /** Whether some key is >= key. */
    method Has(key: Bytes) returns (r: bool)
      requires Valid()
      ensures r <==> exists e :: e in ApplyAll([], history) && Rank(e.key) >= Rank(key)
    {
      hide Rank;
      HistorySorted(history);
      FirstFromNone(ApplyAll([], history), key);
      var node := entries.Search(key);
      r := node != SkipLevels.NIL;
    }

    /** The switch at the end of each round of the recovery loop. */
    method Replay(f: Frame, h: int)
      requires Valid() && 1 <= h <= SkipLevels.MAX_LEVEL
      modifies this, entries, wal
      ensures Valid() && history == old(history) + Ops(FrameOp(f))
    {
      if f.op == OP_PUT {
        Put(f.key, f.value, h);
      } else if f.op == OP_DELETE {
        var _ := Delete(f.key);
      }
    }

    /** Replays a file's records through Put and Delete, whatever levels are drawn; fails at a torn record. */
    method RecoverFromWAL(file: Bytes, draw: nat -> int) returns (ok: bool)
      requires Valid() && forall i :: 1 <= draw(i) <= SkipLevels.MAX_LEVEL
      modifies this, entries, wal
      ensures Valid() && history == old(history) + ParseAll(file)
      ensures ok <==> !EndsTorn(file)
    {
      hide Valid, Next, Rank, ParseAll, EndsTorn, ApplyAll, EncodeAll, FrameOp, Ops;
      var at: nat, round: nat := 0, 0;
      assert file[0..] == file;
      while true
        invariant Valid() && at <= |file|
        invariant history + ParseAll(file[at..]) == old(history) + ParseAll(file)
        invariant EndsTorn(file[at..]) <==> EndsTorn(file)
        decreases |file| - at
      {
        if at == |file| {
          break;
        }
        var f, next;
        ok, f, next := ReadRecord(file, at);
        if !ok {
          NotEnd(file[at..]);
          return;
        }
        ParseRound(file, at, next, f);
        ghost var was := history;
        Replay(f, draw(round));
        assert was + (Ops(FrameOp(f)) + ParseAll(file[next..])) == history + ParseAll(file[next..]);
        at, round := next, round + 1;
      }
      assert file[at..] == [];
      AtEnd();
      ok := true;
    }
  }

  lemma ParseRound(file: Bytes, at: nat, next: nat, f: Frame)
    requires at < next <= |file| && Next(file[at..]) == Record(FrameOp(f), next - at)
    ensures ParseAll(file[at..]) == Ops(FrameOp(f)) + ParseAll(file[next..])
    ensures EndsTorn(file[at..]) <==> EndsTorn(file[next..])
  {
    hide Next;
    assert file[at..][next - at..] == file[next..];
  }

  lemma AtEnd()
    ensures ParseAll([]) == [] && !EndsTorn([])
  {
  }

  lemma NotEnd(bs: Bytes)
    requires bs != [] && !Next(bs).Record?
    ensures ParseAll(bs) == [] && EndsTorn(bs)
  {
  }

  /**
   * Restarting from what is left of a log: the recovered memtable holds the
   * history of exactly the complete records, whatever levels are drawn, and
   * the whole history when the log is whole.
   */
  method Restart(db: Db, n: nat, log: Log, draw: nat -> int) returns (again: Db, ok: bool)
    requires db.Valid() && db.before == [] && n <= |db.wal.bytes| && log != db.wal
    requires forall i :: 0 <= i < |db.history| ==> Fits(db.history[i])
    requires forall i :: 1 <= draw(i) <= SkipLevels.MAX_LEVEL
    modifies log
    ensures fresh(again) && db.Valid() && again.Valid()
    ensures again.entries.Entries0() == ApplyAll([], db.history[..Complete(db.history, n)])
    ensures ok <==> n == |EncodeAll(db.history[..Complete(db.history, n)])|
    ensures n == |db.wal.bytes| ==> ok && again.entries.Entries0() == db.entries.Entries0()
  {
    hide Rank, ApplyAll, ParseAll, EndsTorn, Fits, Encode, EncodeAll;
    ghost var bytes := db.wal.bytes;
    assert bytes == EncodeAll(db.history);
    TruncatedLog(db.history, n);
    CompleteIsMost(db.history, n);
    if n == |bytes| {
      WholeLog(db.history);
      assert bytes[..n] == bytes;
    }
    again := new Db(log, None, 1);
    assert [] + ParseAll(bytes[..n]) == ParseAll(bytes[..n]);
    ok := again.RecoverFromWAL(db.wal.bytes[..n], draw);
  }
}
