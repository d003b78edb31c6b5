/** The buffered reader of csapp.c over a read() that may return short, be interrupted or fail. */
module Rio {

  type Byte = x: int | 0 <= x < 256

  const NEWLINE: Byte := 10
  const BUF_SIZE := 8192

  // ---- the descriptor ----

  /** What one call of read() will do: at most limit bytes (at least one), EINTR, or another error. */
  datatype Reply = Upto(limit: nat) | Interrupted | Failed

  /** The bytes not yet read and how the next calls will go; after the plan, every call is served in full. */
  class Descriptor {
    var rest: seq<Byte>
    var plan: seq<Reply>

    constructor (stream: seq<Byte>, plan: seq<Reply>)
      ensures rest == stream && this.plan == plan
    {
      rest, this.plan := stream, plan;
    }

    /** read(): a positive count, 0 at the end only, or -1 with or without EINTR. */
    method Read(buf: array<Byte>) returns (n: int, eintr: bool)
      requires buf.Length > 0
      modifies this, buf
      ensures -1 <= n <= buf.Length && n <= |old(rest)|
      ensures n == 0 <==> old(rest) == [] && (old(plan) == [] || old(plan)[0].Upto?)
      ensures n > 0 ==> buf[..n] == old(rest)[..n] && rest == old(rest)[n..]
      ensures n <= 0 ==> rest == old(rest)
      ensures plan == if old(plan) == [] then [] else old(plan)[1..]
      ensures eintr ==> n == -1 && old(plan) != []
      ensures n == -1 && !eintr ==> old(plan) != [] && old(plan)[0].Failed?
    {
      n, eintr := if |rest| < buf.Length then |rest| else buf.Length, false;
      if plan != [] {
        match plan[0] {
          case Interrupted => n, eintr := -1, true;
          case Failed => n := -1;
          case Upto(limit) =>
            if limit < n {
              n := if limit == 0 then 1 else limit;
            }
        }
        plan := plan[1..];
      }
      if n > 0 {
        var i := 0;
        while i < n
          modifies buf
          invariant 0 <= i <= n && buf[..i] == rest[..i]
        {
          buf[i] := rest[i];
          i := i + 1;
        }
        rest := rest[n..];
      }
    }
  }

  // ---- what the calls deliver ----

  /** A line: through the first newline, at most cap bytes, or to the end. */
  function Line(s: seq<Byte>, cap: nat): (line: seq<Byte>)
    ensures |line| <= cap && line <= s
  {
    if s == [] || cap == 0 then []
    else if s[0] == NEWLINE then [NEWLINE]
    else [s[0]] + Line(s[1..], cap - 1)
  }

  /** No newline before the last byte of a line. */
  lemma {:induction false} LineBody(s: seq<Byte>, cap: nat, k: nat)
    requires k < |Line(s, cap)| - 1
    ensures Line(s, cap)[k] != NEWLINE
  {
    if k > 0 {
      LineBody(s[1..], cap - 1, k - 1);
    }
  }

  /** A line short of its cap and of the end has a newline as its last byte. */
  lemma {:induction false} LineEnd(s: seq<Byte>, cap: nat)
    requires |Line(s, cap)| < cap && |Line(s, cap)| < |s|
    ensures |Line(s, cap)| > 0 && Line(s, cap)[|Line(s, cap)| - 1] == NEWLINE
  {
    if s[0] != NEWLINE {
      LineEnd(s[1..], cap - 1);
    }
  }

  /** A line stops at the first newline, and short of both its cap and the end only there. */
  lemma LineStops(s: seq<Byte>, cap: nat)
    ensures var n := |Line(s, cap)|;
            && (forall k :: 0 <= k < n - 1 ==> s[k] != NEWLINE)
            && (n < cap && n < |s| ==> n > 0 && s[n - 1] == NEWLINE)
  {
    hide Line;
    var line := Line(s, cap);
    forall k | 0 <= k < |line| - 1 ensures s[k] != NEWLINE {
      LineBody(s, cap, k);
    }
    if |line| < cap && |line| < |s| {
      LineEnd(s, cap);
    }
  }

  class Reader {
    const fd: Descriptor
    const buf: array<Byte>
    var cnt: int
    var ptr: int

    ghost predicate Valid()
      reads this
    {
      buf.Length == BUF_SIZE && cnt <= BUF_SIZE && (cnt > 0 ==> 0 <= ptr && ptr + cnt <= BUF_SIZE)
    }

    /** The bytes of the stream no call has taken yet. */
    ghost function Ahead(): seq<Byte>
      requires Valid()
      reads this, fd, buf
    {
      (if cnt > 0 then buf[ptr..ptr + cnt] else []) + fd.rest
    }

    /** rio_readinitb. */
    constructor (fd: Descriptor)
      ensures Valid() && this.fd == fd && fresh(buf) && Ahead() == fd.rest
    {
      this.fd := fd;
      buf := new Byte[BUF_SIZE](_ => 0);
      cnt, ptr := 0, 0;
    }

    /** The refill loop of rio_read: 1 with bytes buffered, 0 at the end, -1 on error. */
    method Refill() returns (rc: int)
      requires Valid()
      modifies this, fd, buf
      ensures Valid() && Ahead() == old(Ahead())
      ensures rc == 1 ==> cnt > 0
      ensures rc == 0 ==> old(Ahead()) == []
      ensures rc == -1 || rc == 0 || rc == 1
      ensures Failed in fd.plan || rc == -1 ==> Failed in old(fd.plan)
    {
      while cnt <= 0
        invariant Valid() && Ahead() == old(Ahead())
        invariant Failed in fd.plan ==> Failed in old(fd.plan)
        decreases |fd.plan| + (if cnt <= 0 then 1 else 0)
      {
        var n, eintr := fd.Read(buf);
        cnt := n;
        if cnt < 0 {
          if !eintr {
            return -1;
          }
        } else if cnt == 0 {
          return 0;
        } else {
          ptr := 0;
        }
      }
      return 1;
    }

    /** rio_read: some of the bytes ahead into usr at off; none only at the end or when none is asked for. */
    method RioRead(usr: array<Byte>, off: int, n: int) returns (rc: int)
      requires Valid() && usr != buf && 0 <= off && 0 <= n && off + n <= usr.Length
      modifies this, fd, buf, usr
      ensures Valid() && -1 <= rc <= n
      ensures rc >= 0 ==> rc <= |old(Ahead())| && Ahead() == old(Ahead())[rc..]
      ensures rc >= 0 ==> usr[..off + rc] == old(usr[..off]) + old(Ahead())[..rc]
      ensures rc == 0 ==> n == 0 || old(Ahead()) == []
      ensures rc == -1 ==> Ahead() == old(Ahead()) && usr[..] == old(usr[..])
      ensures Failed in fd.plan || rc == -1 ==> Failed in old(fd.plan)
    {
      rc := Refill();
      if rc <= 0 {
        return;
      }
      rc := n;
      if cnt < n {
        rc := cnt;
      }
      Take(usr, off, rc);
    }

    /** The copy at the end of rio_read. */
    method Take(usr: array<Byte>, off: int, n: int)
      requires Valid() && usr != buf && 0 <= n <= cnt && 0 < cnt && 0 <= off && off + n <= usr.Length
      modifies this, usr
      ensures Valid() && n <= |old(Ahead())| && Ahead() == old(Ahead())[n..]
      ensures usr[..off + n] == old(usr[..off]) + old(Ahead())[..n]
    {
      ghost var bytes, prefix := buf[ptr..ptr + cnt], usr[..off];
      var i := 0;
      assert prefix + bytes[..0] == prefix;
      while i < n
        modifies usr
        invariant 0 <= i <= n && usr[..off + i] == prefix + bytes[..i]
      {
        OneMore(usr[..], off + i, buf[ptr + i]);
        OnePast(prefix, bytes, i);
        usr[off + i] := buf[ptr + i];
        i := i + 1;
      }
      ptr := ptr + n;
      cnt := cnt - n;
      assert bytes[n..] == buf[ptr..ptr + cnt];
    }

    /** rio_readnb: n bytes, fewer only at the end. A failure drops the bytes copied before it. */
    method ReadNb(usr: array<Byte>, n: int) returns (rc: int)
      requires Valid() && usr != buf && 0 <= n <= usr.Length
      modifies this, fd, buf, usr
      ensures Valid() && (Failed in fd.plan || rc == -1 ==> Failed in old(fd.plan))
      ensures rc == -1 || (0 <= rc <= n && rc <= |old(Ahead())| && (rc < n ==> rc == |old(Ahead())|))
      ensures rc >= 0 ==> usr[..rc] == old(Ahead())[..rc] && Ahead() == old(Ahead())[rc..]
      ensures rc == -1 ==> exists m :: 0 <= m < n && m <= |old(Ahead())| && Ahead() == old(Ahead())[m..]
    {
      hide Valid, Ahead;
      var nleft, at := n, 0;
      assert usr[..0] == [];
      while nleft > 0
        invariant Valid() && (Failed in fd.plan ==> Failed in old(fd.plan))
        invariant at + nleft == n && 0 <= at <= |old(Ahead())| && 0 <= nleft
        invariant usr[..at] == old(Ahead())[..at] && Ahead() == old(Ahead())[at..]
        decreases nleft
      {
        var nread := RioRead(usr, at, nleft);
        if nread < 0 {
          return -1;
        } else if nread == 0 {
          break;
        }
        Advance(old(Ahead()), at, nread);
        nleft := nleft - nread;
        at := at + nread;
      }
      return n - nleft;
    }

    /** rio_readlineb: a line and a terminating 0; 0 at the end, without the terminator. */
    method ReadLineB(usr: array<Byte>, maxlen: nat) returns (rc: int)
      requires Valid() && usr != buf && 1 <= usr.Length && maxlen <= usr.Length
      modifies this, fd, buf, usr
      ensures Valid() && (Failed in fd.plan || rc == -1 ==> Failed in old(fd.plan))
      ensures rc == -1 || rc == |Line(old(Ahead()), Cap(maxlen))|
      ensures rc >= 0 ==> usr[..rc] == Line(old(Ahead()), Cap(maxlen)) && Ahead() == old(Ahead())[rc..]
      ensures rc >= 0 ==> rc <= |old(Ahead())| && (rc < maxlen || rc == 0)
      ensures rc >= 0 ==> forall k :: 0 <= k < rc - 1 ==> old(Ahead())[k] != 10
      ensures 0 <= rc < maxlen - 1 ==> rc == |old(Ahead())| || (rc > 0 && old(Ahead())[rc - 1] == 10)
      ensures rc > 0 || (rc == 0 && maxlen <= 1) ==> usr[rc] == 0
      ensures rc == -1 ==> exists m :: 0 <= m <= |old(Ahead())| && Ahead() == old(Ahead())[m..]
    {
      hide Line, Valid, Ahead;
      var n;
      ghost var s := Ahead();
      rc, n := LineLoop(usr, maxlen, s);
      LineStops(s, Cap(maxlen));
      if rc < 0 || (rc == 0 && n == 1) {
        return;
      }
      usr[n - 1] := 0;
      return n - 1;
    }

    /** The loop of rio_readlineb: rc is the last result of rio_read, or 1 if the loop was not entered. */
    method LineLoop(usr: array<Byte>, maxlen: nat, ghost s: seq<Byte>) returns (rc: int, n: int)
      requires Valid() && usr != buf && 1 <= usr.Length && maxlen <= usr.Length && s == Ahead()
      modifies this, fd, buf, usr
      ensures -1 <= rc <= 1 && (Failed in fd.plan || rc == -1 ==> Failed in old(fd.plan))
      ensures 1 <= n <= usr.Length && Delivered(usr, s, n - 1)
      ensures rc >= 0 ==> LineIs(s, Cap(maxlen), n - 1)
      ensures rc == 0 && n == 1 ==> maxlen > 1
    {
      hide *;
      ghost var cap := Cap(maxlen);
      rc, n := 1, 1;
      LineStart(s, cap);
      NoneDelivered(usr, s);
      CapIs(maxlen);
      while n < maxlen
        invariant Delivered(usr, s, n - 1) && (Failed in fd.plan ==> Failed in old(fd.plan)) && rc == 1
        invariant 1 <= n && (n <= maxlen || n == 1) && LineSoFar(s, cap, n - 1)
      {
        LineStep(s, cap, n - 1);
        rc := ReadByte(usr, n - 1, s);
        if rc < 1 {
          return;
        }
        n := n + 1;
        if usr[n - 2] == NEWLINE {
          return;
        }
      }
      LineFull(s, cap, n - 1);
    }

    /** The first k bytes of s are in usr, and the rest lies ahead. */
    ghost predicate Delivered(usr: array<Byte>, s: seq<Byte>, k: nat)
      reads this, fd, buf, usr
    {
      Valid() && k <= |s| && k <= usr.Length && usr[..k] == s[..k] && Ahead() == s[k..]
    }

    lemma NoneDelivered(usr: array<Byte>, s: seq<Byte>)
      requires Valid() && s == Ahead()
      ensures Delivered(usr, s, 0)
    {
    }

    /** rio_read of one byte, the k-th of the call. */
    method ReadByte(usr: array<Byte>, k: nat, ghost s: seq<Byte>) returns (rc: int)
      requires Delivered(usr, s, k) && usr != buf && k < usr.Length
      modifies this, fd, buf, usr
      ensures -1 <= rc <= 1 && (Failed in fd.plan || rc == -1 ==> Failed in old(fd.plan))
      ensures rc == 1 ==> k < |s| && usr[k] == s[k] && Delivered(usr, s, k + 1)
      ensures rc == 0 ==> k == |s|
      ensures rc <= 0 ==> Delivered(usr, s, k)
    {
      hide Valid, Ahead;
      rc := RioRead(usr, k, 1);
      if rc == 1 {
        Advance(s, k, 1);
        assert usr[..k + 1][k] == usr[k];
      } else if rc == 0 {
        assert usr[..k + 0] == s[..k] + [];
      } else {
        assert usr[..k] == old(usr[..])[..k];
      }
    }
  }

  /** The terminator takes one of maxlen bytes. */
  function Cap(maxlen: nat): nat { if maxlen == 0 then 0 else maxlen - 1 }

  lemma CapIs(maxlen: nat)
    ensures Cap(maxlen) == if maxlen == 0 then 0 else maxlen - 1
  {
  }

  /** The first k bytes of s belong to its line, and none of them ends it. */
  ghost predicate LineSoFar(s: seq<Byte>, cap: nat, k: nat) {
    k <= |s| && k <= cap && Line(s, cap) == s[..k] + Line(s[k..], cap - k)
  }

  /** The line is the first k bytes of s. */
  ghost predicate LineIs(s: seq<Byte>, cap: nat, k: nat) {
    k <= |s| && Line(s, cap) == s[..k]
  }

  lemma LineStart(s: seq<Byte>, cap: nat)
    ensures LineSoFar(s, cap, 0)
  {
    assert s[0..] == s;
  }

  lemma LineFull(s: seq<Byte>, cap: nat, k: nat)
    requires LineSoFar(s, cap, k) && k == cap
    ensures LineIs(s, cap, k)
  {
  }

  /** What the k-th byte says about the line. */
  lemma LineStep(s: seq<Byte>, cap: nat, k: nat)
    requires LineSoFar(s, cap, k) && k < cap
    ensures k == |s| ==> LineIs(s, cap, k)
    ensures k < |s| && s[k] == NEWLINE ==> LineIs(s, cap, k + 1)
    ensures k < |s| && s[k] != NEWLINE ==> LineSoFar(s, cap, k + 1)
  {
    if k < |s| {
      assert s[k..][1..] == s[k + 1..];
      assert s[..k + 1] == s[..k] + [s[k]];
    }
  }

  /** A store behind the first m bytes. */
  lemma OneMore(u: seq<Byte>, m: nat, b: Byte)
    requires m < |u|
    ensures u[m := b][..m + 1] == u[..m] + [b]
  {
  }

  lemma OnePast(prefix: seq<Byte>, bytes: seq<Byte>, i: nat)
    requires i < |bytes|
    ensures prefix + bytes[..i] + [bytes[i]] == prefix + bytes[..i + 1]
  {
  }

  /** Taking k more bytes after the first at. */
  lemma Advance(s: seq<Byte>, at: nat, k: nat)
    requires at + k <= |s|
    ensures s[..at] + s[at..][..k] == s[..at + k]
    ensures s[at..][k..] == s[at + k..]
  {
  }

  // ---- sequences of calls ----

  datatype Call = GetBytes(n: nat) | GetLine(maxlen: nat)

  /** What a call delivers when s lies ahead: n bytes or all there are, or a line. */
  function Taken(s: seq<Byte>, call: Call): (t: seq<Byte>)
    ensures t <= s
    ensures call.GetBytes? ==> |t| <= call.n && (|t| < call.n ==> t == s)
    ensures call.GetLine? ==> |t| < call.maxlen || t == []
    ensures call.GetLine? ==> forall k :: 0 <= k < |t| - 1 ==> t[k] != 10
    ensures call.GetLine? && |t| < call.maxlen - 1 ==> t == s || (t != [] && t[|t| - 1] == 10)
  {
    match call
    case GetBytes(n) => if n < |s| then s[..n] else s
    case GetLine(maxlen) =>
      LineStops(s, Cap(maxlen));
      Line(s, Cap(maxlen))
  }

  function Outputs(s: seq<Byte>, calls: seq<Call>): seq<seq<Byte>> {
    if calls == [] then []
    else [Taken(s, calls[0])] + Outputs(s[|Taken(s, calls[0])|..], calls[1..])
  }

  function Joined(outs: seq<seq<Byte>>): seq<Byte> {
    if outs == [] then [] else outs[0] + Joined(outs[1..])
  }

  /** Whatever the calls, what they deliver joins to a prefix of the stream. */
  lemma {:induction false} OutputsJoin(s: seq<Byte>, calls: seq<Call>)
    ensures Joined(Outputs(s, calls)) <= s
  {
    hide Taken;
    if calls != [] {
      var t := Taken(s, calls[0]);
      OutputsJoin(s[|t|..], calls[1..]);
      assert s == t + s[|t|..];
    }
  }

  /** The i-th call delivers what it takes from the stream behind the bytes of the calls before it. */
  lemma {:induction false} OutputsInOrder(s: seq<Byte>, calls: seq<Call>, i: nat)
    requires i < |calls|
    ensures |Outputs(s, calls)| == |calls|
    ensures var taken := |Joined(Outputs(s, calls)[..i])|;
      taken <= |s| && Outputs(s, calls)[i] == Taken(s[taken..], calls[i])
  {
    hide Taken;
    OutputsLength(s, calls);
    var t := Taken(s, calls[0]);
    var outs := Outputs(s, calls);
    if i > 0 {
      OutputsInOrder(s[|t|..], calls[1..], i - 1);
      assert outs[..i] == [t] + Outputs(s[|t|..], calls[1..])[..i - 1];
      var more := |Joined(Outputs(s[|t|..], calls[1..])[..i - 1])|;
      assert s[|t|..][more..] == s[|t| + more..];
    } else {
      assert outs[..0] == [] && s[0..] == s;
    }
  }

  lemma {:induction false} OutputsLength(s: seq<Byte>, calls: seq<Call>)
    ensures |Outputs(s, calls)| == |calls|
  {
    hide Taken;
    if calls != [] {
      OutputsLength(s[|Taken(s, calls[0])|..], calls[1..]);
    }
  }

  /** Reading on until nothing comes: calls that always ask for something deliver the whole stream. */
  lemma {:induction false} EnoughCallsDeliverAll(s: seq<Byte>, calls: seq<Call>)
    requires forall i :: 0 <= i < |calls| ==> Asks(calls[i])
    requires |calls| >= |s|
    ensures Joined(Outputs(s, calls)) == s
  {
    if calls != [] {
      assert Asks(calls[0]);
      var t := Taken(s, calls[0]);
      assert s == t + s[|t|..];
      assert s != [] ==> |t| > 0;
      EnoughCallsDeliverAll(s[|t|..], calls[1..]);
    }
  }

  predicate Asks(call: Call) {
    match call
    case GetBytes(n) => n > 0
    case GetLine(maxlen) => maxlen > 1
  }

  /** One call into a buffer of its own. */
  method Perform(r: Reader, call: Call) returns (t: seq<Byte>, ok: bool)
    requires r.Valid()
    modifies r, r.fd, r.buf
    ensures r.Valid() && (Failed in r.fd.plan || !ok ==> Failed in old(r.fd.plan))
    ensures ok ==> t == Taken(old(r.Ahead()), call) && r.Ahead() == old(r.Ahead())[|t|..]
  {
    hide Line;
    var rc, usr;
    match call {
      case GetBytes(n) =>
        usr := new Byte[n](_ => 0);
        rc := r.ReadNb(usr, n);
      case GetLine(maxlen) =>
        usr := new Byte[maxlen + 1](_ => 0);
        rc := r.ReadLineB(usr, maxlen);
    }
    ok := rc >= 0;
    t := if ok then usr[..rc] else [];
  }

  /**
   * However read() splits the stream and however often it is interrupted,
   * the calls deliver what the stream alone says; they fail only if a read
   * fails with something other than EINTR.
   */
  method Session(r: Reader, calls: seq<Call>) returns (outs: seq<seq<Byte>>, ok: bool)
    requires r.Valid()
    modifies r, r.fd, r.buf
    ensures r.Valid() && (!ok ==> Failed in old(r.fd.plan))
    ensures ok ==> outs == Outputs(old(r.Ahead()), calls)
  {
    hide Taken;
    outs, ok := [], true;
    var i := 0;
    while i < |calls|
      invariant r.Valid() && ok && 0 <= i <= |calls|
      invariant Failed in r.fd.plan ==> Failed in old(r.fd.plan)
      invariant outs + Outputs(r.Ahead(), calls[i..]) == Outputs(old(r.Ahead()), calls)
    {
      var t;
      assert calls[i..][1..] == calls[i + 1..];
      t, ok := Perform(r, calls[i]);
      if !ok {
        return;
      }
      outs := outs + [t];
      i := i + 1;
    }
  }
}
