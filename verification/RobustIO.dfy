/**
 The reading and writing loops of Assignment3/src/compsys_helpers.c. What the operating system
 answers to each call is a schedule: it may transfer less than was asked, be interrupted by a
 signal, or fail.
 */
module RobustIO {
  import opened Basics
  import opened Bytes

  const BUFSIZE: nat := 8192
  const NEWLINE: Octet := 10

  /** UpTo(k): at least one and at most k bytes are transferred, if there are any. */
  datatype Answer = Interrupted | Fails | UpTo(k: nat)

  datatype Errno = OK | EINTR | OTHER

  /** The schedule now is what is left of the schedule then. */
  ghost predicate Later(now: seq<Answer>, before: seq<Answer>) {
    |now| <= |before| && now == before[|before| - |now|..]
  }

  lemma NoNewFailure(before: seq<Answer>, now: seq<Answer>)
    requires Later(now, before) && Fails !in before
    ensures Fails !in now
  {}

  lemma NoneAnswered(answers: seq<Answer>)
    ensures Later(answers, answers)
  {}

  /** The contents of a buffer after data has been copied into it. */
  ghost function Overwrite(was: seq<Octet>, at: nat, data: seq<Octet>): (now: seq<Octet>)
    requires at + |data| <= |was|
    ensures |now| == |was|
  {
    was[..at] + data + was[at + |data|..]
  }

  /**
   Exactly k bytes have moved: from the front of the stream to the front of the caller's buffer,
   whose other bytes are as before; the rest of the stream is still to be read.
   */
  ghost predicate Moved(k: nat, bufferWas: seq<Octet>, buffer: seq<Octet>, stream: seq<Octet>, left: seq<Octet>) {
    && k <= |stream| && k <= |bufferWas|
    && left == stream[k..]
    && buffer == Overwrite(bufferWas, 0, stream[..k])
  }

  lemma MovedStep(k: nat, m: nat, bufferWas: seq<Octet>, buffer: seq<Octet>, stream: seq<Octet>, left: seq<Octet>)
    requires Moved(k, bufferWas, buffer, stream, left)
    requires k + m <= |bufferWas| && m <= |left|
    ensures |buffer| == |bufferWas| && k + m <= |stream| && |left[m..]| == |stream| - (k + m)
    ensures Moved(k + m, bufferWas, Overwrite(buffer, k, left[..m]), stream, left[m..])
  {
    assert stream[..k + m] == stream[..k] + left[..m];
  }

  lemma CharMoved(k: nat, bufferWas: seq<Octet>, buffer: seq<Octet>, stream: seq<Octet>, left: seq<Octet>, c: Octet)
    requires Moved(k, bufferWas, buffer, stream, left) && k < |bufferWas| == |buffer|
    requires left != [] && c == left[0]
    ensures k < |stream| && c == stream[k] && |left[1..]| == |stream| - (k + 1)
    ensures Moved(k + 1, bufferWas, buffer[k := c], stream, left[1..])
  {
    assert stream[..k + 1] == stream[..k] + [c];
  }

  lemma NothingWritten(was: seq<Octet>, at: nat)
    requires at <= |was|
    ensures Overwrite(was, at, []) == was
  {}

  lemma OneByte(was: seq<Octet>, data: seq<Octet>)
    requires |was| == |data| == 1
    ensures Overwrite(was, 0, data) == data
  {}

  lemma NothingMoved(bufferWas: seq<Octet>, stream: seq<Octet>)
    ensures Moved(0, bufferWas, bufferWas, stream, stream)
  {}

  method Memcpy(dst: array<Octet>, at: nat, data: seq<Octet>)
    requires at + |data| <= dst.Length
    modifies dst
    ensures dst[..] == Overwrite(old(dst[..]), at, data)
  {
    for i := 0 to |data|
      invariant forall j :: 0 <= j < i ==> dst[at + j] == data[j]
      invariant forall j :: 0 <= j < dst.Length && !(at <= j < at + i) ==> dst[j] == old(dst[j])
    {
      dst[at + i] := data[i];
    }
  }

  /** A file or connection: bytes not yet read, bytes written, and the answers still to be given. */
  class Descriptor {
    var input: seq<Octet>
    var output: seq<Octet>
    var answers: seq<Answer>

    /** The next answer; when the schedule is at its end, calls are answered in full. */
    method Next(n: nat) returns (a: Answer)
      modifies this`answers
      ensures a == if old(answers) == [] then UpTo(n) else old(answers)[0]
      ensures answers == if old(answers) == [] then [] else old(answers)[1..]
    {
      if answers == [] { return UpTo(n); }
      a := answers[0];
      answers := answers[1..];
    }

    /** read: a count, 0 at the end of the input only, or -1 with errno set. */
    method Read(usrbuf: array<Octet>, at: nat, n: nat) returns (r: int, errno: Errno)
      requires 0 < n && at + n <= usrbuf.Length
      modifies usrbuf, this`input, this`answers
      ensures Later(answers, old(answers))
      ensures -1 <= r <= n && (r == 0 <==> errno == OK && old(input) == [])
      ensures r < 0 <==> errno != OK
      ensures errno == EINTR ==> |answers| < |old(answers)|
      ensures errno == OTHER ==> Fails in old(answers)
      ensures r < 0 ==> input == old(input) && usrbuf[..] == old(usrbuf[..])
      ensures r >= 0 ==> r <= |old(input)| && input == old(input)[r..]
      ensures r >= 0 ==> usrbuf[..] == Overwrite(old(usrbuf[..]), at, old(input)[..r])
    {
      var a := Next(n);
      match a
      case Interrupted => return -1, EINTR;
      case Fails => return -1, OTHER;
      case UpTo(k) =>
        var count := Min(Min(Max(k, 1), n), |input|);
        Memcpy(usrbuf, at, input[..count]);
        input := input[count..];
        return count, OK;
    }

    /** write: a positive count or -1 with errno set. */
    method Write(bytes: seq<Octet>) returns (r: int, errno: Errno)
      requires bytes != []
      modifies this`output, this`answers
      ensures Later(answers, old(answers))
      ensures r == -1 || 0 < r <= |bytes|
      ensures r < 0 <==> errno != OK
      ensures errno == EINTR ==> |answers| < |old(answers)|
      ensures errno == OTHER ==> Fails in old(answers)
      ensures output == old(output) + if r < 0 then [] else bytes[..r]
    {
      var a := Next(|bytes|);
      match a
      case Interrupted => return -1, EINTR;
      case Fails => return -1, OTHER;
      case UpTo(k) =>
        var count := Min(Max(k, 1), |bytes|);
        output := output + bytes[..count];
        return count, OK;
    }

    /** compsys_helper_readn: min(n, what there is), whatever the schedule; -1 only if a call failed. */
    method ReadN(usrbuf: array<Octet>, n: nat) returns (r: int, ghost got: nat)
      requires n <= usrbuf.Length
      modifies usrbuf, this`input, this`answers
      ensures Later(answers, old(answers))
      ensures got <= n && Moved(got, old(usrbuf[..]), usrbuf[..], old(input), input)
      ensures if r == -1 then Fails in old(answers) else r == got == Min(n, |old(input)|)
    {
      hide Overwrite, Moved;
      ghost var was, stream := usrbuf[..], input;
      NothingMoved(was, stream);
      var nleft := n;
      var bufp := 0;
      while nleft > 0
        invariant 0 <= nleft <= n && bufp == n - nleft && |input| == |stream| - bufp
        invariant Later(answers, old(answers))
        invariant Moved(bufp, was, usrbuf[..], stream, input)
        decreases nleft + |answers|
      {
        ghost var before, left := usrbuf[..], input;
        var nread, errno := Read(usrbuf, bufp, nleft);
        MovedStep(bufp, Max(nread, 0), was, before, stream, left);
        if nread < 0 {
          if errno == EINTR { nread := 0; } else { return -1, bufp; }
        } else if nread == 0 {
          break;
        }
        nleft := nleft - nread;
        bufp := bufp + nread;
      }
      return n - nleft, bufp;
    }

    /** compsys_helper_writen: all of it, or -1 after a call failed, with a prefix written. */
    method WriteN(usrbuf: seq<Octet>) returns (r: int, ghost sent: nat)
      modifies this`output, this`answers
      ensures Later(answers, old(answers))
      ensures sent <= |usrbuf| && output == old(output) + usrbuf[..sent]
      ensures if r == -1 then Fails in old(answers) else r == sent == |usrbuf|
    {
      var nleft := |usrbuf|;
      var bufp := 0;
      while nleft > 0
        invariant 0 <= nleft && bufp == |usrbuf| - nleft
        invariant Later(answers, old(answers))
        invariant output == old(output) + usrbuf[..bufp]
        decreases nleft + |answers|
      {
        var nwritten, errno := Write(usrbuf[bufp..]);
        if nwritten <= 0 {
          if errno == EINTR { nwritten := 0; } else { return -1, bufp; }
        }
        assert usrbuf[..bufp] + usrbuf[bufp..][..nwritten] == usrbuf[..bufp + nwritten];
        nleft := nleft - nwritten;
        bufp := bufp + nwritten;
      }
      return |usrbuf|, bufp;
    }
  }

  /** Where a line ends: at the first newline, at the limit or at the end of the stream, whichever is first. */
  ghost predicate IsLine(stream: seq<Octet>, limit: nat, k: nat) {
    && k <= limit && k <= |stream|
    && (forall i :: 0 <= i < k - 1 ==> stream[i] != NEWLINE)
    && (k == limit || k == |stream| || (k > 0 && stream[k - 1] == NEWLINE))
  }

  /** A line ends behind the first byte 10. */
  lemma EndOfLine(stream: seq<Octet>, limit: nat, k: nat)
    requires IsLine(stream, limit, k)
    ensures forall i :: 0 <= i < k - 1 ==> stream[i] != 10
    ensures k < limit && k < |stream| ==> k > 0 && stream[k - 1] == 10
  {}

  lemma LineIsUnique(stream: seq<Octet>, limit: nat, k: nat, l: nat)
    requires IsLine(stream, limit, k) && IsLine(stream, limit, l)
    ensures k == l
  {}

  /** What is unread in a buffer, then the rest of the input. */
  ghost function Ahead(buf: seq<Octet>, bufptr: nat, cnt: int, input: seq<Octet>): seq<Octet>
    requires cnt > 0 ==> bufptr + cnt <= |buf|
  {
    (if cnt > 0 then buf[bufptr..bufptr + cnt] else []) + input
  }

  lemma HasBytes(buf: seq<Octet>, bufptr: nat, cnt: nat, input: seq<Octet>)
    requires 0 < cnt && bufptr + cnt <= |buf|
    ensures Ahead(buf, bufptr, cnt, input) != []
  {}

  lemma TakeAhead(buf: seq<Octet>, bufptr: nat, cnt: nat, input: seq<Octet>, r: nat)
    requires r <= cnt && bufptr + cnt <= |buf|
    ensures r <= |Ahead(buf, bufptr, cnt, input)| && Ahead(buf, bufptr, cnt, input)[..r] == buf[bufptr..bufptr + r]
    ensures Ahead(buf, bufptr + r, cnt - r, input) == Ahead(buf, bufptr, cnt, input)[r..]
  {}

  /** A size_t of 64 bits cut to 32 bits. */
  function Low(n: nat): (low: nat)
    ensures low <= n && (n < M32 ==> low == n)
  {
    n % M32
  }

  /** `(int) n` for such a number. */
  function ToInt(n: nat): int { if Low(n) < 0x8000_0000 then Low(n) else Low(n) - M32 }

  lemma LowMinus(n: nat, k: nat)
    requires k <= Low(n)
    ensures k <= n && Low(n - k) == Low(n) - k
  {}

  /** From a buffer that is not empty memcpy is asked for a negative number of bytes. */
  ghost predicate Spoils(n: nat, stream: seq<Octet>) { ToInt(n) < 0 && stream != [] }

  /**
   What compsys_helper_readnb delivers for a length of n is what was asked for exactly if there
   is nothing to read, or n fits into an int, or all there is fits into what is left of n in one.
   */
  lemma AskedExactly(n: nat, stream: seq<Octet>)
    ensures !Spoils(n, stream) && Min(Low(n), |stream|) == Min(n, |stream|)
      <==> stream == [] || n < 0x8000_0000 || |stream| <= ToInt(n)
  {}

  /** The first length at which a negative number of bytes is copied, and the first at which nothing is delivered. */
  lemma NarrowedLengths()
    ensures ToInt(0x7fff_ffff) == 0x7fff_ffff
    ensures Spoils(0x8000_0000, [NEWLINE]) && !Spoils(M32, [NEWLINE]) && Low(M32) == 0
  {}

  /** compsys_helper_state_t */
  class Reader {
    const fd: Descriptor
    const buf: array<Octet>
    var cnt: int
    var bufptr: nat

    ghost predicate Valid()
      reads this
    {
      buf.Length == BUFSIZE && (cnt > 0 ==> bufptr + cnt <= BUFSIZE)
    }

    /** What the caller has not seen yet: the unread part of the buffer, then the rest of the input. */
    ghost function Unread(): seq<Octet>
      requires Valid()
      reads this, fd, buf
    {
      Ahead(buf[..], bufptr, cnt, fd.input)
    }

    /** compsys_helper_readinitb */
    constructor (fd: Descriptor)
      ensures Valid() && fresh(buf) && this.fd == fd && Unread() == fd.input
    {
      this.fd := fd;
      cnt := 0;
      bufptr := 0;
      buf := new Octet[BUFSIZE];
    }

    /** The refill loop of compsys_helper_read. */
    method Refill() returns (r: int)
      requires Valid()
      modifies this, buf, fd`input, fd`answers
      ensures Valid() && Unread() == old(Unread()) && Later(fd.answers, old(fd.answers))
      ensures r == 1 ==> cnt > 0
      ensures r == 0 ==> old(Unread()) == []
      ensures r == -1 ==> Fails in old(fd.answers)
      ensures r in {-1, 0, 1}
    {
      while cnt <= 0
        invariant Valid() && Unread() == old(Unread()) && Later(fd.answers, old(fd.answers))
        decreases cnt <= 0, |fd.answers|
      {
        ghost var input, contents := fd.input, buf[..];
        var n, errno := fd.Read(buf, 0, BUFSIZE);
        cnt := n;
        if cnt < 0 {
          if errno != EINTR { return -1; }
        } else if cnt == 0 {
          return 0;
        } else {
          bufptr := 0;
          assert buf[0..cnt] == input[..cnt];
          assert input == input[..cnt] + input[cnt..];
        }
      }
      return 1;
    }

    /**
     compsys_helper_read: at most `(int) n` bytes, from the buffer only; fewer only if that uses
     it up. If there are bytes and `(int) n` is negative, so is the number of bytes to copy.
     */
    method HelperRead(usrbuf: array<Octet>, at: nat, n: nat) returns (r: int, negative: bool)
      requires Valid() && usrbuf != buf && 0 < n && at + n <= usrbuf.Length
      modifies this, buf, fd`input, fd`answers, usrbuf
      ensures Valid() && Later(fd.answers, old(fd.answers))
      ensures negative ==> Spoils(n, old(Unread()))
      ensures Spoils(n, old(Unread())) && !negative ==> r == -1
      ensures !negative ==> -1 <= r <= Max(ToInt(n), 0) && r <= |old(Unread())|
      ensures !negative ==> Unread() == old(Unread())[Max(r, 0)..]
      ensures !negative ==> usrbuf[..] == Overwrite(old(usrbuf[..]), at, old(Unread())[..Max(r, 0)])
      ensures !negative && r == 0 ==> old(Unread()) == [] || ToInt(n) == 0
      ensures !negative && 0 < r < ToInt(n) ==> cnt == 0
      ensures !negative && old(cnt) > 0 ==>
        r == (if ToInt(n) < old(cnt) then ToInt(n) else old(cnt)) && fd.input == old(fd.input)
      ensures !negative && r == -1 ==> Fails in old(fd.answers)
    {
      hide Overwrite, Later, Ahead;
      NoneAnswered(fd.answers);
      negative := false;
      if cnt <= 0 {
        var filled := Refill();
        if filled < 1 {
          NothingWritten(usrbuf[..], at);
          return filled, negative;
        }
      }
      HasBytes(buf[..], bufptr, cnt, fd.input);
      r := ToInt(n);
      if cnt < ToInt(n) { r := cnt; }
      if r < 0 { return r, true; }
      ghost var was := buf[..];
      TakeAhead(was, bufptr, cnt, fd.input, r);
      Memcpy(usrbuf, at, buf[bufptr..bufptr + r]);
      assert buf[..] == was;
      bufptr := bufptr + r;
      cnt := cnt - r;
    }

    /** compsys_helper_readnb */
    method ReadNB(usrbuf: array<Octet>, n: nat) returns (r: int, negative: bool, ghost got: nat)
      requires Valid() && usrbuf != buf && n <= usrbuf.Length
      modifies this, buf, fd`input, fd`answers, usrbuf
      ensures Valid() && Later(fd.answers, old(fd.answers))
      ensures negative ==> Spoils(n, old(Unread()))
      ensures Spoils(n, old(Unread())) && !negative ==> r == -1
      ensures !negative ==> got <= n && Moved(got, old(usrbuf[..]), usrbuf[..], old(Unread()), Unread())
      ensures !negative ==> if r == -1 then Fails in old(fd.answers) else r == got == Min(Low(n), |old(Unread())|)
    {
      hide Overwrite, Moved, Unread, Valid;
      ghost var was, stream := usrbuf[..], Unread();
      NothingMoved(was, stream);
      var nleft := n;
      var bufp := 0;
      while nleft > 0
        invariant 0 <= nleft <= n && bufp == n - nleft <= Low(n) && (bufp > 0 ==> ToInt(n) > 0)
        invariant Valid() && Later(fd.answers, old(fd.answers))
        invariant Moved(bufp, was, usrbuf[..], stream, Unread()) && |Unread()| == |stream| - bufp
      {
        LowMinus(n, bufp);
        ghost var before, left := usrbuf[..], Unread();
        var nread;
        nread, negative := HelperRead(usrbuf, bufp, nleft);
        if negative { return nread, negative, bufp; }
        MovedStep(bufp, Max(nread, 0), was, before, stream, left);
        if nread < 0 {
          return -1, false, bufp;
        } else if nread == 0 {
          break;
        }
        nleft := nleft - nread;
        bufp := bufp + nread;
      }
      return n - nleft, false, bufp;
    }

    /** compsys_helper_readlineb; the line is closed with a NUL, except when the stream is at its end. */
    method ReadLineB(usrbuf: array<Octet>, maxlen: nat) returns (r: int, ghost got: nat, ghost text: seq<Octet>)
      requires Valid() && usrbuf != buf && maxlen <= usrbuf.Length && 0 < usrbuf.Length
      modifies this, buf, fd`input, fd`answers, usrbuf
      ensures Valid() && Later(fd.answers, old(fd.answers))
      ensures if r == -1 then Fails in old(fd.answers) else r == got && IsLine(old(Unread()), Max(maxlen, 1) - 1, got)
      ensures got < |text| && Moved(got, old(usrbuf[..]), text, old(Unread()), Unread())
      ensures usrbuf[..] == if r == -1 || (got == 0 && maxlen > 1) then text else text[got := 0]
    {
      hide Overwrite, Moved, Unread, Valid;
      ghost var was, stream := usrbuf[..], Unread();
      NothingMoved(was, stream);
      var n := 1;
      var bufp := 0;
      var c := new Octet[1];
      while n < maxlen
        invariant 1 <= n <= Max(maxlen, 1) && bufp == n - 1
        invariant Valid() && Later(fd.answers, old(fd.answers))
        invariant Moved(bufp, was, usrbuf[..], stream, Unread()) && |Unread()| == |stream| - bufp
        invariant forall i :: 0 <= i < bufp ==> stream[i] != NEWLINE
      {
        ghost var before, left, cell := usrbuf[..], Unread(), c[..];
        var rc, _ := HelperRead(c, 0, 1);
        if rc == 1 {
          OneByte(cell, left[..1]);
          CharMoved(bufp, was, before, stream, left, c[0]);
          usrbuf[bufp] := c[0];
          assert usrbuf[..] == before[bufp := c[0]];
          bufp := bufp + 1;
          if c[0] == NEWLINE {
            n := n + 1;
            break;
          }
        } else if rc == 0 {
          if n == 1 { return 0, 0, usrbuf[..]; }
          break;
        } else {
          return -1, bufp, usrbuf[..];
        }
        n := n + 1;
      }
      text := usrbuf[..];
      usrbuf[bufp] := 0;
      assert usrbuf[..] == text[bufp := 0];
      return n - 1, bufp, text;
    }
  }

  // ---------- any mix of calls ----------

  datatype Call = Bytes(n: nat) | Line(maxlen: nat)

  /** How much of the stream a call takes when nothing fails: a function of the stream alone. */
  ghost function Taken(call: Call, stream: seq<Octet>): (k: nat)
    ensures k <= |stream|
  {
    match call
    case Bytes(n) => Min(Low(n), |stream|)
    case Line(maxlen) => LineLength(stream, Max(maxlen, 1) - 1)
  }

  ghost function LineLength(stream: seq<Octet>, limit: nat): (k: nat)
    ensures IsLine(stream, limit, k)
  {
    if limit == 0 || stream == [] then 0
    else if stream[0] == NEWLINE then 1
    else
      var k := LineLength(stream[1..], limit - 1);
      assert forall i :: 0 < i < k ==> stream[i] == stream[1..][i - 1];
      1 + k
  }

  /** No call on the way copies a negative number of bytes. */
  ghost predicate AllFine(stream: seq<Octet>, calls: seq<Call>) {
    calls == [] ||
    (!(calls[0].Bytes? && Spoils(calls[0].n, stream)) && AllFine(stream[Taken(calls[0], stream)..], calls[1..]))
  }

  ghost function Chunks(stream: seq<Octet>, calls: seq<Call>): seq<seq<Octet>> {
    if calls == [] then [] else
      var k := Taken(calls[0], stream);
      [stream[..k]] + Chunks(stream[k..], calls[1..])
  }

  lemma {:induction false} ChunksStep(stream: seq<Octet>, calls: seq<Call>, call: Call, left: seq<Octet>)
    requires stream == Joined(Chunks(stream, calls)) + left
    ensures Chunks(stream, calls + [call]) == Chunks(stream, calls) + [left[..Taken(call, left)]]
    decreases |calls|
  {
    hide Taken, Chunks;
    ChunksOfNothing(stream);
    FirstChunk(stream, calls + [call]);
    if calls == [] {
      assert calls + [call] == [call] && [call][1..] == [] && left == stream;
      ChunksOfNothing(left[Taken(call, left)..]);
    } else {
      var k := Taken(calls[0], stream);
      FirstChunk(stream, calls);
      assert (calls + [call])[0] == calls[0];
      JoinedFirst(stream[..k], Chunks(stream[k..], calls[1..]));
      assert stream[k..] == Joined(Chunks(stream[k..], calls[1..])) + left;
      ChunksStep(stream[k..], calls[1..], call, left);
      assert (calls + [call])[1..] == calls[1..] + [call];
    }
  }

  lemma FirstChunk(stream: seq<Octet>, calls: seq<Call>)
    requires calls != []
    ensures var k := Taken(calls[0], stream);
      Chunks(stream, calls) == [stream[..k]] + Chunks(stream[k..], calls[1..])
  {}

  /**
   A caller that makes these calls gets the same bytes whatever the schedule of short reads and
   interruptions: the chunks depend on the stream alone, and with what is still unread they are it.
   So does whether some call copies a negative number of bytes.
   */
  method ReadAll(reader: Reader, calls: seq<Call>) returns (chunks: seq<seq<Octet>>, negative: bool)
    requires reader.Valid() && Fails !in reader.fd.answers
    modifies reader, reader.buf, reader.fd
    ensures reader.Valid()
    ensures negative <==> !AllFine(old(reader.Unread()), calls)
    ensures !negative ==> chunks == Chunks(old(reader.Unread()), calls)
    ensures !negative ==> Joined(chunks) + reader.Unread() == old(reader.Unread())
  {
    hide IsLine, Taken, Chunks, Joined, AllFine, Spoils, Reader.Unread, Reader.Valid;
    ghost var stream := reader.Unread();
    chunks := [];
    ChunksOfNothing(stream);
    assert calls[0..] == calls;
    for i := 0 to |calls|
      invariant reader.Valid() && Fails !in reader.fd.answers
      invariant AllFine(stream, calls) <==> AllFine(reader.Unread(), calls[i..])
      invariant chunks == Chunks(stream, calls[..i])
      invariant Joined(chunks) + reader.Unread() == stream
    {
      ghost var left := reader.Unread();
      FineStep(left, calls, i);
      var chunk;
      chunk, negative := ReadOne(reader, calls[i]);
      if negative { return; }
      ChunksStep(stream, calls[..i], calls[i], left);
      assert calls[..i + 1] == calls[..i] + [calls[i]];
      JoinedNext(chunks, chunk, left, reader.Unread());
      chunks := chunks + [chunk];
    }
    FineStep(reader.Unread(), calls, |calls|);
    assert calls[..|calls|] == calls;
    negative := false;
  }

  lemma FineStep(left: seq<Octet>, calls: seq<Call>, i: nat)
    requires i <= |calls|
    ensures i == |calls| ==> AllFine(left, calls[i..])
    ensures i < |calls| ==>
      (AllFine(left, calls[i..]) <==>
        !(calls[i].Bytes? && Spoils(calls[i].n, left)) && AllFine(left[Taken(calls[i], left)..], calls[i + 1..]))
  {
    hide Taken, Spoils;
    if i < |calls| { assert calls[i..][1..] == calls[i + 1..]; }
  }

  lemma ChunksOfNothing(stream: seq<Octet>)
    ensures Chunks(stream, []) == [] && Joined<Octet>([]) == []
  {}

  lemma JoinedNext(chunks: seq<seq<Octet>>, chunk: seq<Octet>, left: seq<Octet>, rest: seq<Octet>)
    requires chunk <= left && rest == left[|chunk|..]
    ensures Joined(chunks + [chunk]) + rest == Joined(chunks) + left
  {
    assert (chunks + [chunk])[..|chunks|] == chunks;
    assert left == chunk + rest;
  }

  method ReadOne(reader: Reader, call: Call) returns (chunk: seq<Octet>, negative: bool)
    requires reader.Valid() && Fails !in reader.fd.answers
    modifies reader, reader.buf, reader.fd
    ensures reader.Valid() && Fails !in reader.fd.answers
    ensures negative <==> call.Bytes? && Spoils(call.n, old(reader.Unread()))
    ensures !negative ==>
      var k := Taken(call, old(reader.Unread()));
      chunk == old(reader.Unread())[..k] && reader.Unread() == old(reader.Unread())[k..]
  {
    hide Spoils;
    ghost var stream := reader.Unread();
    chunk, negative := [], false;
    match call
    case Bytes(n) =>
      var usrbuf := new Octet[n];
      var r;
      ghost var got;
      r, negative, got := reader.ReadNB(usrbuf, n);
      if !negative { chunk := usrbuf[..r]; }
    case Line(maxlen) =>
      var usrbuf := new Octet[Max(maxlen, 1)];
      var r, got, text := reader.ReadLineB(usrbuf, maxlen);
      LineIsUnique(stream, Max(maxlen, 1) - 1, got, LineLength(stream, Max(maxlen, 1) - 1));
      chunk := usrbuf[..r];
  }
}
