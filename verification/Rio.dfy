/** csapp.c's Rio package: buffered reads and robust writes over a descriptor
    that answers in arbitrary portions. */
module Rio {
  import opened Bytes

  const NEWLINE: byte := 10

  const RIO_BUFSIZE := 8192

  /** How the descriptor answers one read or write: at most `k` bytes, EINTR, or another error. */
  datatype Answer = Portion(k: nat) | Interrupted | Failed

  /** A descriptor: the bytes still to be read, the bytes written, and its future
      answers. When those run out it serves every request in full. */
  class Descriptor {
    var stream: seq<byte>
    var written: seq<byte>
    var answers: seq<Answer>

    constructor (stream: seq<byte>, answers: seq<Answer>)
      ensures this.stream == stream && this.answers == answers && written == []
    {
      this.stream, this.answers, this.written := stream, answers, [];
    }

    /** read: the number of bytes stored, 0 at end of file; -1 with the EINTR flag for an error. */
    method Read(buf: array<byte>, n: nat) returns (r: int, eintr: bool)
      requires 0 < n <= buf.Length
      modifies `stream, `answers, buf
      ensures -1 <= r <= n
      ensures r >= 0 ==> buf[..r] + stream == old(stream)
      ensures r == 0 ==> stream == []
      ensures r == -1 ==> stream == old(stream) && |answers| < |old(answers)|
      ensures r == -1 && !eintr ==> Failed in old(answers)
      ensures |answers| <= |old(answers)| && forall a :: a in answers ==> a in old(answers)
    {
      var answer := Portion(n);
      if answers != [] {
        answer := answers[0];
        answers := answers[1..];
      }
      match answer
      case Interrupted => return -1, true;
      case Failed => return -1, false;
      case Portion(k) =>
        r := if k < n then k else n;
        r := if |stream| < r then |stream| else r;
        if r == 0 && stream != [] {
          r := 1;
        }
        for i := 0 to r
          invariant stream == old(stream) && forall j :: 0 <= j < i ==> buf[j] == stream[j]
          modifies buf
        {
          buf[i] := stream[i];
        }
        stream := stream[r..];
        eintr := false;
    }

    /** write: the number of bytes taken; -1 with the EINTR flag for an error. */
    method Write(buf: array<byte>, off: nat, n: nat) returns (r: int, eintr: bool)
      requires 0 < n && off + n <= buf.Length
      modifies `written, `answers
      ensures -1 <= r <= n
      ensures r >= 0 ==> written == old(written) + buf[off..off + r]
      ensures r <= 0 ==> written == old(written) && |answers| < |old(answers)|
      ensures r <= 0 && !eintr ==> Failed in old(answers) || Portion(0) in old(answers)
      ensures |answers| <= |old(answers)| && forall a :: a in answers ==> a in old(answers)
    {
      var answer := Portion(n);
      if answers != [] {
        answer := answers[0];
        answers := answers[1..];
      }
      match answer
      case Interrupted => return -1, true;
      case Failed => return -1, false;
      case Portion(k) =>
        r := if k < n then k else n;
        written := written + buf[off..off + r];
        eintr := false;
    }
  }

  /** The line that a stream starts with: up to its first newline, at most `max` bytes. */
  function LineOf(s: seq<byte>, max: nat): (line: seq<byte>)
    ensures line <= s && |line| <= max
    ensures forall i :: 0 <= i < |line| - 1 ==> line[i] != NEWLINE
    ensures |line| < max && |line| < |s| ==> line != [] && line[|line| - 1] == NEWLINE
  {
    if max == 0 || s == [] then []
    else if s[0] == NEWLINE then [s[0]]
    else
      var rest := LineOf(s[1..], max - 1);
      assert forall i :: 1 <= i < |[s[0]] + rest| ==> ([s[0]] + rest)[i] == rest[i - 1];
      [s[0]] + rest
  }

  /** memcpy */
  method CopyBytes(dst: array<byte>, off: nat, src: array<byte>, from: nat, n: nat)
    requires dst != src && off + n <= dst.Length && from + n <= src.Length
    modifies dst
    ensures dst[off..off + n] == src[from..from + n]
    ensures forall j :: 0 <= j < dst.Length && !(off <= j < off + n) ==> dst[j] == old(dst[j])
  {
    for i := 0 to n
      invariant dst[off..off + i] == src[from..from + i]
      invariant forall j :: 0 <= j < dst.Length && !(off <= j < off + i) ==> dst[j] == old(dst[j])
    {
      dst[off + i] := src[from + i];
    }
  }

  class Reader {
    const fd: Descriptor
    const buf: array<byte>
    var cnt: int
    var bufptr: int

    ghost predicate Valid()
      reads this
    {
      buf.Length == RIO_BUFSIZE && (cnt > 0 ==> 0 <= bufptr && bufptr + cnt <= buf.Length)
    }

    /** The bytes of the descriptor that no call has returned yet. */
    ghost function Rest(): seq<byte>
      requires Valid()
      reads this, buf, fd
    {
      (if cnt > 0 then buf[bufptr..bufptr + cnt] else []) + fd.stream
    }

    /** rio_readinitb */
    constructor (fd: Descriptor)
      ensures Valid() && this.fd == fd && Rest() == fd.stream && fresh(buf) && buf.Length == 8192
    {
      this.fd := fd;
      buf := new byte[RIO_BUFSIZE];
      cnt, bufptr := 0, 0;
    }

    /** The refill loop of rio_read: 1 when bytes are buffered, 0 at the end of the stream, -1 on error. */
    method Refill() returns (r: int)
      requires Valid()
      modifies this, buf, fd`stream, fd`answers
      ensures Valid() && Rest() == old(Rest()) && -1 <= r <= 1
      ensures r == 1 ==> cnt > 0
      ensures r == 0 ==> Rest() == []
      ensures r == -1 ==> Failed in old(fd.answers)
      ensures |fd.answers| <= |old(fd.answers)| && forall a :: a in fd.answers ==> a in old(fd.answers)
    {
      while cnt <= 0
        invariant Valid() && Rest() == old(Rest())
        invariant |fd.answers| <= |old(fd.answers)| && forall a :: a in fd.answers ==> a in old(fd.answers)
        decreases cnt <= 0, |fd.answers|
      {
        var k, eintr := fd.Read(buf, RIO_BUFSIZE);
        cnt := k;
        if cnt < 0 {
          if !eintr {
            return -1;
          }
        } else if cnt == 0 {
          return 0;
        } else {
          bufptr := 0;
        }
      }
      return 1;
    }

    /** rio_read: moves up to `n` unread bytes to usr[off..]; 0 only at the end of the stream. */
    method Read(usr: array<byte>, off: nat, n: nat) returns (r: int)
      requires Valid() && usr != buf && 0 < n && off + n <= usr.Length
      modifies this, buf, fd`stream, fd`answers, usr
      ensures Valid() && -1 <= r <= n
      ensures r >= 0 ==> usr[off..off + r] + Rest() == old(Rest())
      ensures r == 0 ==> Rest() == []
      ensures r == -1 ==> Rest() == old(Rest()) && Failed in old(fd.answers)
      ensures forall i :: 0 <= i < usr.Length && !(off <= i < off + r) ==> usr[i] == old(usr[i])
      ensures |fd.answers| <= |old(fd.answers)| && forall a :: a in fd.answers ==> a in old(fd.answers)
    {
      hide *;
      var ready := Refill();
      if ready <= 0 {
        assert usr[off..off] + Rest() == Rest();
        return ready;
      }
      Buffered();
      r := n;
      if cnt < n {
        r := cnt;
      }
      CopyBytes(usr, off, buf, bufptr, r);
      Advance(r);
    }

    lemma Buffered()
      requires Valid() && cnt > 0
      ensures 0 <= bufptr && bufptr + cnt <= buf.Length
    {
    }

    /** Moves the buffer pointer past `r` bytes. */
    method Advance(r: nat)
      requires Valid() && 0 < cnt && r <= cnt
      modifies `bufptr, `cnt
      ensures Valid() && buf[old(bufptr)..old(bufptr) + r] + Rest() == old(Rest())
    {
      SplitSlice(buf[..], bufptr, r, cnt, fd.stream);
      bufptr := bufptr + r;
      cnt := cnt - r;
    }

    /** rio_readnb: everything asked for, or all that is left. */
    method ReadNb(usr: array<byte>, n: nat) returns (r: int)
      requires Valid() && usr != buf && n <= usr.Length
      modifies this, buf, fd`stream, fd`answers, usr
      ensures Valid() && -1 <= r <= n
      ensures r >= 0 ==> usr[..r] + Rest() == old(Rest()) && r == (if |old(Rest())| < n then |old(Rest())| else n)
      ensures forall i :: (if r < 0 then n else r) <= i < usr.Length ==> usr[i] == old(usr[i])
      ensures r == -1 ==> Failed in old(fd.answers)
      ensures |fd.answers| <= |old(fd.answers)| && forall a :: a in fd.answers ==> a in old(fd.answers)
    {
      hide *;
      var nleft, bufp := n, 0;
      assert usr[..bufp] + Rest() == Rest();
      while nleft > 0
        invariant 0 <= nleft <= n && bufp == n - nleft && Valid()
        invariant usr[..bufp] + Rest() == old(Rest())
        invariant forall i :: bufp <= i < usr.Length ==> usr[i] == old(usr[i])
        invariant |fd.answers| <= |old(fd.answers)| && forall a :: a in fd.answers ==> a in old(fd.answers)
      {
        ghost var done, rest := usr[..bufp], Rest();
        var nread := Read(usr, bufp, nleft);
        if nread < 0 {
          return -1;
        }
        assert usr[..bufp] == done;
        Regroup(done, usr[bufp..bufp + nread], Rest());
        assert usr[..bufp + nread] == done + usr[bufp..bufp + nread];
        if nread == 0 {
          break;
        }
        nleft := nleft - nread;
        bufp := bufp + nread;
      }
      return n - nleft;
    }

    /** The loop of rio_readlineb: `n` as the loop leaves it and how it was left, with 1 for
        a stored line, 0 for the end of the stream before any byte and -1 for an error. */
    method LineLoop(usr: array<byte>, maxlen: nat) returns (n: int, status: int)
      requires Valid() && usr != buf && 1 <= maxlen <= usr.Length
      modifies this, buf, fd`stream, fd`answers, usr
      ensures Valid() && 1 <= n <= maxlen && -1 <= status <= 1
      ensures status == 1 ==>
        WholeLine(old(Rest()), usr[..n - 1], Rest(), maxlen - 1) && (n == 1 ==> maxlen == 1)
      ensures status == 0 ==> n == 1 && maxlen > 1 && old(Rest()) == [] && Rest() == []
      ensures status == -1 ==> Failed in old(fd.answers)
      ensures forall i :: n - 1 <= i < usr.Length ==> usr[i] == old(usr[i])
      ensures |fd.answers| <= |old(fd.answers)| && forall a :: a in fd.answers ==> a in old(fd.answers)
    {
      hide *;
      var bufp := 0;
      n := 1;
      var c := new byte[1];
      ghost var total := Rest();
      assert usr[..0] == [];
      StartLine(total, maxlen - 1);
      while n < maxlen
        invariant 1 <= n <= maxlen && bufp == n - 1 && Valid()
        invariant InLine(total, usr[..bufp], Rest(), maxlen - 1)
        invariant forall i :: bufp <= i < usr.Length ==> usr[i] == old(usr[i])
        invariant |fd.answers| <= |old(fd.answers)| && forall a :: a in fd.answers ==> a in old(fd.answers)
      {
        ghost var done := usr[..bufp];
        var rc := Read(c, 0, 1);
        if rc == 1 {
          assert c[0..1] == [c[0]];
          NextByte(total, done, c[0], Rest(), maxlen - 1);
          usr[bufp] := c[0];
          bufp := bufp + 1;
          assert usr[..bufp] == done + [c[0]];
          if c[0] == NEWLINE {
            return n + 1, 1;
          }
        } else if rc == 0 {
          assert c[0..0] + Rest() == Rest();
          EndOfStream(total, done, maxlen - 1);
          return n, if n == 1 then 0 else 1;
        } else {
          return n, -1;
        }
        n := n + 1;
      }
      FullLine(total, usr[..bufp], Rest(), maxlen - 1);
      status := 1;
    }

    /** rio_readlineb: the line that the unread bytes start with. A NUL follows it in the
        buffer exactly when something was left to read or there was room for the NUL only;
        otherwise the buffer is untouched. */
    method ReadLineB(usr: array<byte>, maxlen: nat) returns (r: int)
      requires Valid() && usr != buf && 1 <= maxlen <= usr.Length
      modifies this, buf, fd`stream, fd`answers, usr
      ensures Valid() && -1 <= r < maxlen
      ensures r >= 0 ==> WholeLine(old(Rest()), usr[..r], Rest(), maxlen - 1)
      ensures r >= 0 ==> usr[..r] + Rest() == old(Rest()) && forall i :: 0 <= i < r - 1 ==> usr[i] != 10
      ensures 0 <= r < maxlen - 1 && Rest() != [] ==> r > 0 && usr[r - 1] == 10
      ensures r >= 0 && (old(Rest()) != [] || maxlen == 1) ==> usr[r] == 0
      ensures r >= 0 && old(Rest()) == [] && maxlen > 1 ==> r == 0 && usr[..] == old(usr[..])
      ensures forall i :: (if r < 0 then maxlen - 1 else r) < i < usr.Length ==> usr[i] == old(usr[i])
      ensures r == -1 ==> Failed in old(fd.answers)
      ensures |fd.answers| <= |old(fd.answers)| && forall a :: a in fd.answers ==> a in old(fd.answers)
    {
      hide *;
      ghost var total := Rest();
      var n, status := LineLoop(usr, maxlen);
      if status == -1 {
        return -1;
      }
      if status == 0 {
        EmptyLine(maxlen - 1);
        assert usr[..0] == [];
        assert usr[..0] + Rest() == [];
        return 0;
      }
      ghost var got := usr[..n - 1];
      UnfoldLine(total, got, Rest(), maxlen - 1);
      LineEnds(total, got, Rest(), maxlen - 1);
      usr[n - 1] := 0;
      assert usr[..n - 1] == got;
      assert forall i :: 0 <= i < n - 1 ==> usr[i] == got[i];
      return n - 1;
    }

    /** A client that mixes both kinds of calls, until one of them fails. */
    method ReadMix(calls: seq<Call>) returns (results: seq<seq<byte>>, ok: bool)
      requires Valid() && ValidCalls(calls)
      modifies this, buf, fd`stream, fd`answers
      ensures Valid()
      ensures results <= ServedAll(calls, old(Rest()))
      ensures ok ==> results == ServedAll(calls, old(Rest())) && Rest() == Left(calls, old(Rest()))
      ensures !ok ==> Failed in old(fd.answers)
    {
      hide *;
      results := [];
      ok := true;
      var k := 0;
      assert calls[0..] == calls;
      while k < |calls|
        invariant 0 <= k <= |calls| && Valid() && ValidCalls(calls[k..])
        invariant results + ServedAll(calls[k..], Rest()) == ServedAll(calls, old(Rest()))
        invariant Left(calls[k..], Rest()) == Left(calls, old(Rest()))
        invariant forall a :: a in fd.answers ==> a in old(fd.answers)
      {
        ghost var rest := Rest();
        var r: int;
        var usr: array<byte>;
        CallValid(calls, k);
        match calls[k] {
          case Bytes(n) =>
            usr := new byte[n];
            r := ReadNb(usr, n);
          case Line(max) =>
            usr := new byte[max];
            r := ReadLineB(usr, max);
        }
        if r < 0 {
          return results, false;
        }
        if calls[k].Line? {
          UnfoldLine(rest, usr[..r], Rest(), calls[k].max - 1);
        }
        ServedPrefix(calls[k], rest, usr[..r], Rest());
        ServedOne(calls, k, rest, usr[..r], Rest());
        Regroup(results, [usr[..r]], ServedAll(calls[k + 1..], Rest()));
        results := results + [usr[..r]];
        k := k + 1;
      }
      NothingServed(Rest());
      assert calls[k..] == [];
    }
  }

  /** Two lines come out one by one, through any short reads and interrupts. */
  method TwoLines(answers: seq<Answer>) returns (first: seq<byte>, second: seq<byte>)
    requires Failed !in answers
    ensures first == [97, 10] && second == [98]
  {
    hide *;
    var stream: seq<byte> := [97, 10, 98];
    var fd := new Descriptor(stream, answers);
    var reader := new Reader(fd);
    var line := new byte[10];
    var r := reader.ReadLineB(line, 10);
    first := line[..r];
    LineParts(stream, first, reader.Rest(), 9, 1);
    r := reader.ReadLineB(line, 10);
    second := line[..r];
    assert second + reader.Rest() == [98];
  }

  /** A line of a stream whose first newline is at `k`. */
  lemma LineParts(total: seq<byte>, got: seq<byte>, rest: seq<byte>, max: nat, k: nat)
    requires k < |total| && total[k] == 10 && k < max && forall i :: 0 <= i < k ==> total[i] != 10
    requires got + rest == total && forall i :: 0 <= i < |got| - 1 ==> got[i] != 10
    requires |got| < max && rest != [] ==> got != [] && got[|got| - 1] == 10
    ensures got == total[..k + 1] && rest == total[k + 1..]
  {
    assert forall i :: 0 <= i < |got| ==> got[i] == total[i];
  }

  /** A line that is not terminated: nothing is left to read, and the buffer keeps what it held. */
  method UnterminatedLine() returns (r: int, line: array<byte>)
    ensures r == 0 && line.Length == 10 && forall i :: 0 <= i < 10 ==> line[i] == 120
  {
    var fd := new Descriptor([], []);
    var reader := new Reader(fd);
    line := new byte[10](_ => 120);
    ghost var before := line[..];
    r := reader.ReadLineB(line, 10);
    assert forall i :: 0 <= i < 10 ==> line[..][i] == before[i];
  }

  /** rio_writen: all `n` bytes, or -1 after an error other than EINTR. */
  method WriteN(fd: Descriptor, usr: array<byte>, n: nat) returns (r: int)
    requires n <= usr.Length
    modifies fd`written, fd`answers
    ensures r == n || r == -1
    ensures r == n ==> fd.written == old(fd.written) + usr[..n]
    ensures r == -1 ==> Failed in old(fd.answers) || Portion(0) in old(fd.answers)
    ensures exists k :: 0 <= k <= n && fd.written == old(fd.written) + usr[..k]
  {
    var nleft, bufp := n, 0;
    assert old(fd.written) + usr[..0] == old(fd.written);
    while nleft > 0
      invariant 0 <= nleft <= n && bufp == n - nleft
      invariant fd.written == old(fd.written) + usr[..bufp]
      invariant forall a :: a in fd.answers ==> a in old(fd.answers)
      decreases nleft, |fd.answers|
    {
      var nwritten, eintr := fd.Write(usr, bufp, nleft);
      if nwritten <= 0 {
        if eintr {
          nwritten := 0;
        } else {
          return -1;
        }
      }
      assert usr[..bufp] + usr[bufp..bufp + nwritten] == usr[..bufp + nwritten];
      nleft := nleft - nwritten;
      bufp := bufp + nwritten;
    }
    return n;
  }

  // ----- streams -----

  datatype Call = Bytes(n: nat) | Line(max: nat)

  /** What a call returns when `rest` is unread: it depends on the stream alone,
      not on how the descriptor portions it. */
  function Served(c: Call, rest: seq<byte>): (s: seq<byte>)
    requires c.Line? ==> c.max >= 1
    ensures s <= rest
  {
    match c
    case Bytes(n) => if |rest| < n then rest else rest[..n]
    case Line(max) => LineOf(rest, max - 1)
  }

  ghost predicate ValidCalls(calls: seq<Call>) {
    forall c :: c in calls ==> c.Line? ==> c.max >= 1
  }

  function ServedAll(calls: seq<Call>, rest: seq<byte>): seq<seq<byte>>
    requires ValidCalls(calls)
  {
    if calls == [] then []
    else
      var s := Served(calls[0], rest);
      [s] + ServedAll(calls[1..], rest[|s|..])
  }

  function Left(calls: seq<Call>, rest: seq<byte>): seq<byte>
    requires ValidCalls(calls)
  {
    if calls == [] then rest else Left(calls[1..], rest[|Served(calls[0], rest)|..])
  }

  ghost function Flatten(parts: seq<seq<byte>>): seq<byte> {
    if parts == [] then [] else parts[0] + Flatten(parts[1..])
  }

  /** No byte is lost, repeated or moved: the results followed by what is left are the stream. */
  lemma {:induction false} StreamPreserved(calls: seq<Call>, rest: seq<byte>)
    requires ValidCalls(calls)
    ensures Flatten(ServedAll(calls, rest)) + Left(calls, rest) == rest
  {
    if calls != [] {
      hide Served;
      var s := Served(calls[0], rest);
      StreamPreserved(calls[1..], rest[|s|..]);
      var parts := ServedAll(calls[1..], rest[|s|..]);
      assert ([s] + parts)[1..] == parts;
      Regroup(s, Flatten(parts), Left(calls, rest));
      assert s + rest[|s|..] == rest;
    }
  }

  lemma CallValid(calls: seq<Call>, k: nat)
    requires k < |calls| && ValidCalls(calls[k..])
    ensures calls[k].Line? ==> calls[k].max >= 1
    ensures ValidCalls(calls[k + 1..])
  {
    assert calls[k] == calls[k..][0];
    assert forall c :: c in calls[k + 1..] ==> c in calls[k..];
  }

  lemma NothingServed(rest: seq<byte>)
    ensures ValidCalls([]) && ServedAll([], rest) == [] && Left([], rest) == rest
  {
  }

  lemma ServedPrefix(c: Call, rest: seq<byte>, got: seq<byte>, rest': seq<byte>)
    requires (c.Line? ==> c.max >= 1) && got + rest' == rest
    requires c.Bytes? ==> |got| == if |rest| < c.n then |rest| else c.n
    requires c.Line? ==> got == LineOf(rest, c.max - 1)
    ensures got == Served(c, rest)
  {
    assert got == rest[..|got|];
  }

  lemma ServedOne(calls: seq<Call>, k: nat, rest: seq<byte>, got: seq<byte>, rest': seq<byte>)
    requires k < |calls| && ValidCalls(calls[k..]) && ValidCalls(calls[k + 1..])
    requires (calls[k].Line? ==> calls[k].max >= 1) && got + rest' == rest && got == Served(calls[k], rest)
    ensures ServedAll(calls[k..], rest) == [got] + ServedAll(calls[k + 1..], rest')
    ensures Left(calls[k..], rest) == Left(calls[k + 1..], rest')
  {
    assert calls[k..][1..] == calls[k + 1..];
    assert rest[|got|..] == rest';
  }

  /** Within a line: `got` was read of `total`, `rest` was not, and the line goes on. */
  ghost predicate InLine(total: seq<byte>, got: seq<byte>, rest: seq<byte>, max: nat) {
    |got| <= max && got + rest == total && LineOf(total, max) == got + LineOf(rest, max - |got|)
  }

  /** `got` is the whole line that `total` starts with. */
  ghost predicate WholeLine(total: seq<byte>, got: seq<byte>, rest: seq<byte>, max: nat) {
    got + rest == total && LineOf(total, max) == got
  }

  lemma StartLine(total: seq<byte>, max: nat)
    ensures InLine(total, [], total, max)
  {
  }

  lemma NextByte(total: seq<byte>, got: seq<byte>, c: byte, rest: seq<byte>, max: nat)
    requires InLine(total, got, [c] + rest, max) && |got| < max
    ensures c != NEWLINE ==> InLine(total, got + [c], rest, max)
    ensures c == NEWLINE ==> WholeLine(total, got + [c], rest, max)
  {
    assert ([c] + rest)[1..] == rest;
    Regroup(got, [c], rest);
    Regroup(got, [c], LineOf(rest, max - |got| - 1));
  }

  lemma EndOfStream(total: seq<byte>, got: seq<byte>, max: nat)
    requires InLine(total, got, [], max)
    ensures WholeLine(total, got, [], max) && got == total
  {
  }

  lemma UnfoldLine(total: seq<byte>, got: seq<byte>, rest: seq<byte>, max: nat)
    requires WholeLine(total, got, rest, max)
    ensures got + rest == total && LineOf(total, max) == got
  {
  }

  /** Where a line ends: at its only newline, the byte 10, unless it is full or the stream is at its end. */
  lemma LineEnds(total: seq<byte>, got: seq<byte>, rest: seq<byte>, max: nat)
    requires WholeLine(total, got, rest, max)
    ensures |got| <= max && forall i :: 0 <= i < |got| - 1 ==> got[i] != 10
    ensures |got| < max && rest != [] ==> got != [] && got[|got| - 1] == 10
  {
    assert |total| == |got| + |rest|;
  }

  lemma EmptyLine(max: nat)
    ensures WholeLine([], [], [], max)
  {
  }

  lemma FullLine(total: seq<byte>, got: seq<byte>, rest: seq<byte>, max: nat)
    requires InLine(total, got, rest, max) && |got| == max
    ensures WholeLine(total, got, rest, max)
  {
  }

  lemma Regroup<T>(a: seq<T>, b: seq<T>, c: seq<T>)
    ensures a + (b + c) == (a + b) + c
  {
  }

  lemma SplitSlice(b: seq<byte>, p: int, r: int, c: int, tail: seq<byte>)
    requires 0 <= p && 0 <= r <= c && p + c <= |b|
    ensures b[p..p + c] + tail == b[p..p + r] + (b[p + r..p + c] + tail)
  {
    assert b[p..p + c] == b[p..p + r] + b[p + r..p + c];
  }
}
