/** wal.go and the parsing half of db.go's recovery: the log's record format. */
module Wal {
  import opened Wrappers
  import opened ByteKeys
  import opened Memtable

  const OP_PUT := 1
  const OP_DELETE := 2
  const WORD := 0x1_0000_0000

  datatype Op = Put(key: Bytes, value: Bytes) | Delete(key: Bytes)

  // ---- lengths ----

  /** Big-endian; the length is converted to uint32 first, so it is taken modulo 2^32. */
  function EncodeUint32(n: nat): (b: Bytes)
    ensures |b| == 4
  {
    [n / 0x100_0000 % 256, n / 0x1_0000 % 256, n / 0x100 % 256, n % 256]
  }

  function DecodeUint32(b: Bytes): (n: nat)
    requires |b| == 4
    ensures n < WORD
  {
    b[0] * 0x100_0000 + b[1] * 0x1_0000 + b[2] * 0x100 + b[3]
  }

  lemma LowByte(n: nat, q: nat, r: nat)
    requires n == 0x100 * q + r && r < 0x100
    ensures n / 0x100 == q && n % 0x100 == r
  {
  }

  lemma ByteSplit(n: nat)
    ensures n == 0x100 * (n / 0x100) + n % 0x100 && 0 <= n % 0x100 < 0x100
  {
  }

  lemma ByteShifts(n: nat)
    ensures n / 0x1_0000 == n / 0x100 / 0x100
    ensures n / 0x100_0000 == n / 0x100 / 0x100 / 0x100
  {
  }

  lemma LowWord(n: nat, q: nat, r: nat)
    requires n == WORD * q + r && r < WORD
    ensures n % WORD == r
  {
  }

  lemma Uint32RoundTrip(n: nat)
    ensures DecodeUint32(EncodeUint32(n)) == n % WORD
  {
    var a := n / 0x100;
    var b := a / 0x100;
    var c := b / 0x100;
    ByteSplit(n);
    ByteSplit(a);
    ByteSplit(b);
    ByteSplit(c);
    ByteShifts(n);
    LowWord(n, c / 0x100, DecodeUint32(EncodeUint32(n)));
  }

  lemma Uint32Bytes(b: Bytes)
    requires |b| == 4
    ensures EncodeUint32(DecodeUint32(b)) == b
  {
    var n := DecodeUint32(b);
    var top := b[0] * 0x1_0000 + b[1] * 0x100 + b[2];
    ByteShifts(n);
    LowByte(n, top, b[3]);
    LowByte(top, b[0] * 0x100 + b[1], b[2]);
    LowByte(b[0] * 0x100 + b[1], b[0], b[1]);
  }

  // ---- records ----

  function Encode(op: Op): Bytes {
    match op
    case Put(k, v) => [OP_PUT] + EncodeUint32(|k|) + EncodeUint32(|v|) + k + v
    case Delete(k) => [OP_DELETE] + EncodeUint32(|k|) + k
  }

  function EncodeAll(ops: seq<Op>): Bytes {
    if ops == [] then [] else Encode(ops[0]) + EncodeAll(ops[1..])
  }

  /** The lengths are written whole. */
  predicate Fits(op: Op) {
    |op.key| < WORD && (op.Put? ==> |op.value| < WORD)
  }

  // ---- reading one record ----

  /** What the reader makes of the bytes ahead; a record with an unknown operation carries none. */
  datatype Parsed = End | Torn | Record(op: Option<Op>, size: nat)

  function Next(bs: Bytes): (p: Parsed)
    ensures p.Record? ==> 0 < p.size <= |bs|
    ensures p.End? <==> bs == []
  {
    if bs == [] then End
    else if |bs| < 5 then Torn
    else
      var keyLen := DecodeUint32(bs[1..5]);
      if bs[0] == OP_PUT then
        if |bs| < 9 then Torn
        else
          var valueLen := DecodeUint32(bs[5..9]);
          if |bs| < 9 + keyLen + valueLen then Torn
          else Record(Some(Put(bs[9..9 + keyLen], bs[9 + keyLen..9 + keyLen + valueLen])), 9 + keyLen + valueLen)
      else if |bs| < 5 + keyLen then Torn
      else Record(if bs[0] == OP_DELETE then Some(Delete(bs[5..5 + keyLen])) else None, 5 + keyLen)
  }

  function Ops(op: Option<Op>): seq<Op> {
    match op
    case None => []
    case Some(o) => [o]
  }

  /** The operations of the complete records, up to the end or the first torn one. */
  function ParseAll(bs: Bytes): seq<Op> {
    match Next(bs)
    case Record(op, size) => Ops(op) + ParseAll(bs[size..])
    case _ => []
  }

  predicate EndsTorn(bs: Bytes) {
    match Next(bs)
    case Record(op, size) => EndsTorn(bs[size..])
    case End => false
    case Torn => true
  }

  // ---- round trip ----

  lemma Middle(a: seq<int>, b: seq<int>, c: seq<int>)
    ensures (a + b + c)[|a|..|a| + |b|] == b
  {
  }

  lemma Regroup(a: seq<int>, b: seq<int>, c: seq<int>)
    ensures a + b + c == a + (b + c)
  {
  }

  /** The five fields of a put: operation, two lengths, key and value. */
  lemma FiveFields(o: seq<int>, a: seq<int>, b: seq<int>, k: seq<int>, v: seq<int>, rest: seq<int>)
    ensures var bs := o + a + b + k + v + rest;
      && bs[|o|..|o| + |a|] == a && bs[|o| + |a|..|o| + |a| + |b|] == b
      && bs[|o| + |a| + |b|..|o| + |a| + |b| + |k|] == k
      && bs[|o| + |a| + |b| + |k|..|o| + |a| + |b| + |k| + |v|] == v
  {
    Middle(o + a + b + k, v, rest);
    Regroup(o + a + b + k, v, rest);
    Middle(o + a + b, k, v + rest);
    Regroup(o + a + b, k, v + rest);
    Middle(o + a, b, k + (v + rest));
    Regroup(o + a, b, k + (v + rest));
    Middle(o, a, b + (k + (v + rest)));
  }

  /** The fields of an encoded put, whatever follows. */
  lemma PutFields(k: Bytes, v: Bytes, rest: Bytes)
    ensures var bs := Encode(Put(k, v)) + rest;
      && |Encode(Put(k, v))| == 9 + |k| + |v| && bs[0] == OP_PUT
      && bs[1..5] == EncodeUint32(|k|) && bs[5..9] == EncodeUint32(|v|)
      && bs[9..9 + |k|] == k && bs[9 + |k|..9 + |k| + |v|] == v
  {
    hide EncodeUint32;
    FiveFields([OP_PUT], EncodeUint32(|k|), EncodeUint32(|v|), k, v, rest);
  }

  lemma DeleteFields(k: Bytes, rest: Bytes)
    ensures var bs := Encode(Delete(k)) + rest;
      && |Encode(Delete(k))| == 5 + |k| && bs[0] == OP_DELETE
      && bs[1..5] == EncodeUint32(|k|) && bs[5..5 + |k|] == k
  {
    hide EncodeUint32;
    var o, a := [OP_DELETE], EncodeUint32(|k|);
    Middle(o + a, k, rest);
    Regroup(o + a, k, rest);
    Middle(o, a, k + rest);
  }

  lemma SmallWord(n: nat)
    requires n < WORD
    ensures DecodeUint32(EncodeUint32(n)) == n
  {
    hide EncodeUint32, DecodeUint32;
    Uint32RoundTrip(n);
  }

  lemma NextPut(k: Bytes, v: Bytes, rest: Bytes)
    requires |k| < WORD && |v| < WORD
    ensures Next(Encode(Put(k, v)) + rest) == Record(Some(Put(k, v)), |Encode(Put(k, v))|)
  {
    hide EncodeUint32, DecodeUint32, Encode;
    PutFields(k, v, rest);
    SmallWord(|k|);
    SmallWord(|v|);
  }

  lemma NextDelete(k: Bytes, rest: Bytes)
    requires |k| < WORD
    ensures Next(Encode(Delete(k)) + rest) == Record(Some(Delete(k)), |Encode(Delete(k))|)
  {
    hide EncodeUint32, DecodeUint32, Encode;
    DeleteFields(k, rest);
    SmallWord(|k|);
  }

  /** No record the parser returns has a longer key or value than a length can say. */
  lemma ParsedFits(bs: Bytes)
    ensures var p := Next(bs); p.Record? && p.op.Some? ==> Fits(p.op.value)
  {
    hide DecodeUint32;
  }

  /** A record is read back as written, whatever follows, exactly when its lengths fit in 32 bits. */
  lemma RecordRoundTrip(op: Op, rest: Bytes)
    ensures Next(Encode(op) + rest) == Record(Some(op), |Encode(op)|) <==> Fits(op)
  {
    if Fits(op) {
      match op
      case Put(k, v) => NextPut(k, v, rest);
      case Delete(k) => NextDelete(k, rest);
    } else {
      ParsedFits(Encode(op) + rest);
    }
  }

  /** What is parsed as a put, put together again. */
  lemma PutPieces(bs: Bytes, keyLen: nat, valueLen: nat)
    requires 9 + keyLen + valueLen <= |bs| && bs[0] == OP_PUT
    ensures [OP_PUT] + bs[1..5] + bs[5..9] + bs[9..9 + keyLen] + bs[9 + keyLen..9 + keyLen + valueLen]
         == bs[..9 + keyLen + valueLen]
  {
  }

  lemma DeletePieces(bs: Bytes, keyLen: nat)
    requires 5 + keyLen <= |bs| && bs[0] == OP_DELETE
    ensures [OP_DELETE] + bs[1..5] + bs[5..5 + keyLen] == bs[..5 + keyLen]
  {
  }

  lemma PutAgain(bs: Bytes, keyLen: nat, valueLen: nat)
    requires 9 + keyLen + valueLen <= |bs| && bs[0] == OP_PUT
    requires keyLen == DecodeUint32(bs[1..5]) && valueLen == DecodeUint32(bs[5..9])
    ensures Encode(Put(bs[9..9 + keyLen], bs[9 + keyLen..9 + keyLen + valueLen])) == bs[..9 + keyLen + valueLen]
  {
    hide EncodeUint32, DecodeUint32;
    var k, v := bs[9..9 + keyLen], bs[9 + keyLen..9 + keyLen + valueLen];
    Uint32Bytes(bs[1..5]);
    Uint32Bytes(bs[5..9]);
    assert |k| == keyLen && |v| == valueLen;
    PutPieces(bs, keyLen, valueLen);
  }

  lemma DeleteAgain(bs: Bytes, keyLen: nat)
    requires 5 + keyLen <= |bs| && bs[0] == OP_DELETE && keyLen == DecodeUint32(bs[1..5])
    ensures Encode(Delete(bs[5..5 + keyLen])) == bs[..5 + keyLen]
  {
    hide EncodeUint32, DecodeUint32;
    var k := bs[5..5 + keyLen];
    Uint32Bytes(bs[1..5]);
    assert |k| == keyLen;
    DeletePieces(bs, keyLen);
  }

  /** What is parsed from a record is the record: writing it again gives the same bytes. */
  lemma ParseThenEncode(bs: Bytes)
    requires Next(bs).Record? && Next(bs).op.Some?
    ensures Encode(Next(bs).op.value) == bs[..Next(bs).size]
  {
    hide EncodeUint32, DecodeUint32, Encode;
    if bs[0] == OP_PUT {
      PutAgain(bs, DecodeUint32(bs[1..5]), DecodeUint32(bs[5..9]));
    } else {
      DeleteAgain(bs, DecodeUint32(bs[1..5]));
    }
  }

  lemma SliceOfPrefix(bs: Bytes, n: nat, a: nat, b: nat)
    requires a <= b <= n <= |bs|
    ensures bs[..n][a..b] == bs[a..b]
  {
  }

  /** A number of 32 bits, most significant byte first. */
  lemma BigEndian(n: nat)
    ensures var b := EncodeUint32(n);
            b[0] * 0x100_0000 + b[1] * 0x1_0000 + b[2] * 0x100 + b[3] == n % 0x1_0000_0000
  {
    hide EncodeUint32;
    Uint32RoundTrip(n);
  }

  /** The bytes of a record: the operation, the lengths, then key and value. */
  lemma RecordBytes(op: Op)
    ensures var bs, k := Encode(op), |op.key|;
      && |bs| == (if op.Put? then 9 + k + |op.value| else 5 + k)
      && bs[0] == (if op.Put? then 1 else 2)
      && bs[1] * 0x100_0000 + bs[2] * 0x1_0000 + bs[3] * 0x100 + bs[4] == k % 0x1_0000_0000
      && (op.Put? ==>
           && bs[5] * 0x100_0000 + bs[6] * 0x1_0000 + bs[7] * 0x100 + bs[8] == |op.value| % 0x1_0000_0000
           && bs[9..9 + k] == op.key && bs[9 + k..] == op.value)
      && (op.Delete? ==> bs[5..] == op.key)
  {
    hide EncodeUint32, Encode;
    var bs := Encode(op);
    assert bs + [] == bs;
    BigEndian(|op.key|);
    match op
    case Put(k, v) =>
      PutFields(k, v, []);
      BigEndian(|v|);
    case Delete(k) => DeleteFields(k, []);
  }

  /** A proper prefix of a record is torn. */
  lemma TornRecord(op: Op, n: nat)
    requires Fits(op) && 0 < n < |Encode(op)|
    ensures Next(Encode(op)[..n]) == Torn
  {
    hide EncodeUint32, DecodeUint32, Encode;
    var bs := Encode(op);
    assert bs + [] == bs;
    match op {
      case Put(k, v) =>
        PutFields(k, v, []);
        SmallWord(|v|);
      case Delete(k) => DeleteFields(k, []);
    }
    SmallWord(|op.key|);
    if n >= 5 {
      SliceOfPrefix(bs, n, 1, 5);
      if n >= 9 {
        SliceOfPrefix(bs, n, 5, 9);
      }
    }
  }

  // ---- truncated logs ----

  /** How many of the records lie wholly within the first n bytes. */
  function Complete(ops: seq<Op>, n: nat): (m: nat)
    ensures m <= |ops|
  {
    if ops == [] || n < |Encode(ops[0])| then 0 else 1 + Complete(ops[1..], n - |Encode(ops[0])|)
  }

  /** The complete records are the most that fit in n bytes. */
  lemma {:induction false} CompleteIsMost(ops: seq<Op>, n: nat)
    ensures var m := Complete(ops, n);
            |EncodeAll(ops[..m])| <= n && (m < |ops| ==> n < |EncodeAll(ops[..m + 1])|)
  {
    hide Encode;
    if ops != [] {
      if n < |Encode(ops[0])| {
        assert ops[..1] == [ops[0]];
        EncodeOne(ops[0]);
      } else {
        var m := Complete(ops[1..], n - |Encode(ops[0])|);
        CompleteIsMost(ops[1..], n - |Encode(ops[0])|);
        assert ops[..m + 1][0] == ops[0] && ops[..m + 1][1..] == ops[1..][..m];
        assert m + 1 < |ops| ==> ops[..m + 2][0] == ops[0] && ops[..m + 2][1..] == ops[1..][..m + 1];
      }
    }
  }

  /** The first record of a log that holds it whole. */
  lemma ParseFirst(op: Op, rest: Bytes)
    requires Fits(op)
    ensures ParseAll(Encode(op) + rest) == [op] + ParseAll(rest)
    ensures EndsTorn(Encode(op) + rest) <==> EndsTorn(rest)
  {
    hide Encode, Next, Fits;
    RecordRoundTrip(op, rest);
    assert (Encode(op) + rest)[|Encode(op)|..] == rest;
  }

  /** A log cut within its first record. */
  lemma ParseShort(ops: seq<Op>, n: nat)
    requires n <= |EncodeAll(ops)|
    requires n == 0 || (ops != [] && Fits(ops[0]) && n < |Encode(ops[0])|)
    ensures ParseAll(EncodeAll(ops)[..n]) == [] && (EndsTorn(EncodeAll(ops)[..n]) <==> n > 0)
    ensures Complete(ops, n) == 0
  {
    hide Encode, Fits;
    if n == 0 {
      CompleteZero(ops);
    } else {
      assert EncodeAll(ops)[..n] == Encode(ops[0])[..n];
      TornRecord(ops[0], n);
    }
  }

  /** A log cut behind its first record. */
  lemma CutBehindFirst(ops: seq<Op>, n: nat)
    requires ops != [] && |Encode(ops[0])| <= n <= |EncodeAll(ops)|
    ensures n - |Encode(ops[0])| <= |EncodeAll(ops[1..])|
    ensures EncodeAll(ops)[..n] == Encode(ops[0]) + EncodeAll(ops[1..])[..n - |Encode(ops[0])|]
  {
    hide Encode;
    assert EncodeAll(ops) == Encode(ops[0]) + EncodeAll(ops[1..]);
  }

  lemma CompleteBehindFirst(ops: seq<Op>, n: nat)
    requires ops != [] && |Encode(ops[0])| <= n
    ensures var r, m := |Encode(ops[0])|, Complete(ops[1..], n - |Encode(ops[0])|);
            && Complete(ops, n) == m + 1
            && ops[..m + 1] == [ops[0]] + ops[1..][..m]
            && |EncodeAll(ops[..m + 1])| == r + |EncodeAll(ops[1..][..m])|
  {
    hide Encode;
    var m := Complete(ops[1..], n - |Encode(ops[0])|);
    assert ops[..m + 1][1..] == ops[1..][..m];
  }

  /** A log cut anywhere yields exactly its complete records, in order, and reports the torn one. */
  lemma {:induction false} TruncatedLog(ops: seq<Op>, n: nat)
    requires forall i :: 0 <= i < |ops| ==> Fits(ops[i])
    requires n <= |EncodeAll(ops)|
    ensures ParseAll(EncodeAll(ops)[..n]) == ops[..Complete(ops, n)]
    ensures EndsTorn(EncodeAll(ops)[..n]) <==> n > |EncodeAll(ops[..Complete(ops, n)])|
  {
    hide Encode, Fits, ParseAll, EndsTorn, Next, Complete;
    if n == 0 || n < |Encode(ops[0])| {
      ParseShort(ops, n);
      assert ops[..0] == [];
    } else {
      hide EncodeAll;
      CutBehindFirst(ops, n);
      CompleteBehindFirst(ops, n);
      var rest := n - |Encode(ops[0])|;
      ParseFirst(ops[0], EncodeAll(ops[1..])[..rest]);
      TruncatedLog(ops[1..], rest);
    }
  }

  lemma CompleteZero(ops: seq<Op>)
    ensures Complete(ops, 0) == 0
  {
    assert ops != [] ==> |Encode(ops[0])| > 0;
  }

  /** The whole log yields the whole history. */
  lemma {:induction false} WholeLog(ops: seq<Op>)
    requires forall i :: 0 <= i < |ops| ==> Fits(ops[i])
    ensures ParseAll(EncodeAll(ops)) == ops && !EndsTorn(EncodeAll(ops))
  {
    hide Encode, Next, Fits;
    if ops != [] {
      ParseFirst(ops[0], EncodeAll(ops[1..]));
      WholeLog(ops[1..]);
    }
  }

  lemma {:induction false} EncodeAppend(a: seq<Op>, b: seq<Op>)
    ensures EncodeAll(a + b) == EncodeAll(a) + EncodeAll(b)
  {
    hide Encode;
    if a == [] {
      assert a + b == b;
    } else {
      assert (a + b)[1..] == a[1..] + b;
      EncodeAppend(a[1..], b);
      assert EncodeAll(a + b) == Encode(a[0]) + (EncodeAll(a[1..]) + EncodeAll(b));
    }
  }

  lemma EncodeOne(op: Op)
    ensures EncodeAll([op]) == Encode(op)
  {
    assert EncodeAll([op]) == Encode(op) + EncodeAll([]);
  }

  class Log {
    var bytes: Bytes

    constructor ()
      ensures bytes == []
    {
      bytes := [];
    }

    /** WAL.Write: the record is built field by field and appended. */
    method Write(op: int, key: Bytes, value: Bytes)
      requires op == OP_PUT || op == OP_DELETE
      modifies this
      ensures bytes == old(bytes) + Encode(if op == OP_PUT then Put(key, value) else Delete(key))
    {
      var buf: Bytes := [op];
      buf := buf + EncodeUint32(|key|);
      if op == OP_PUT {
        buf := buf + EncodeUint32(|value|);
      }
      buf := buf + key;
      if op == OP_PUT {
        buf := buf + value;
      }
      bytes := bytes + buf;
    }
  }
}
