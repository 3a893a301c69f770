// The robust I/O package: buffered and unbuffered reads and unbuffered writes, as a plain byte stream.
module Rio {
  import opened Descriptor

  const RIO_BUFSIZE: nat := 8192

  /** How many bytes of s a line takes: through the first newline, at most max. */
  function LineLength(s: seq<char>, max: nat): (n: nat)
    ensures n <= |s| && n <= max
  {
    if s == [] || max == 0 then 0
    else if s[0] == '\n' then 1
    else 1 + LineLength(s[1..], max - 1)
  }

  /** A line has a newline at most at its end, and stops short of max only there or at the end of s. */
  lemma {:induction false} LineIsALine(s: seq<char>, max: nat)
    ensures var n := LineLength(s, max);
            && (forall i :: 0 <= i < n - 1 ==> s[i] != '\n')
            && (n < max && n < |s| ==> n > 0 && s[n - 1] == '\n')
            && (n == 0 <==> s == [] || max == 0)
    decreases max
  {
    if s != [] && max > 0 && s[0] != '\n' {
      LineIsALine(s[1..], max - 1);
      var m := LineLength(s[1..], max - 1);
      assert forall i :: 0 < i < m ==> s[i] == s[1..][i - 1];
    }
  }

  /** After k bytes of a line, none a newline, `rest` is left and at most max bytes of it belong to the line. */
  ghost predicate LineSoFar(s: seq<char>, k: nat, max: nat, rest: seq<char>) {
    && k <= |s| && rest == s[k..] && '\n' !in s[..k]
    && LineLength(s, k + max) == k + LineLength(rest, max)
  }

  lemma LineStarts(s: seq<char>, max: nat)
    ensures LineSoFar(s, 0, max, s)
  {
  }

  lemma {:induction false} LineGrows(s: seq<char>, k: nat, max: nat, rest: seq<char>)
    requires LineSoFar(s, k, max, rest)
    ensures k <= |s| && rest == s[k..] && '\n' !in s[..k]
    ensures rest == [] || max == 0 ==> LineLength(s, k + max) == k
    ensures rest != [] && max > 0 ==> k + 1 <= |s| && s[k..][..1] == [rest[0]] && rest[1..] == s[k + 1..]
    ensures rest != [] && max > 0 && rest[0] == '\n' ==> LineLength(s, k + max) == k + 1
    ensures rest != [] && max > 0 && rest[0] != '\n' ==> LineSoFar(s, k + 1, max - 1, rest[1..])
  {
    if rest != [] {
      assert s[..k + 1] == s[..k] + [rest[0]];
    }
  }

  /** How many bytes a line may have in a buffer of maxlen, which includes the NUL. */
  function AtMost(maxlen: nat): nat {
    if maxlen == 0 then 0 else maxlen - 1
  }

  // ----- What one call of `rio_read` finds

  function PastInterrupts(script: seq<ReadEvent>): seq<ReadEvent> {
    if script != [] && script[0] == ReadInterrupted then PastInterrupts(script[1..]) else script
  }

  /** The first read that is not interrupted: how many bytes it brings of those left, or -1 if it fails. */
  function Fetched(script: seq<ReadEvent>, left: nat): int {
    var s := PastInterrupts(script);
    if s != [] && s[0] == ReadFailed then -1 else Min(Offered(s, RIO_BUFSIZE), left)
  }

  lemma {:induction false} InterruptsOnly(script: seq<ReadEvent>)
    ensures ReadTo(script, PastInterrupts(script), false)
    ensures var s := PastInterrupts(script);
            && (s != [] ==> s[0] != ReadInterrupted)
            && forall i :: 0 <= i < |script| - |s| ==> script[i] == ReadInterrupted
  {
    if script != [] && script[0] == ReadInterrupted {
      InterruptsOnly(script[1..]);
      var s := PastInterrupts(script);
      assert forall i :: 0 < i < |script| - |s| ==> script[i] == script[1..][i - 1];
    }
  }

  /** The n bytes at `at`; none for an empty or failed buffer. */
  function Window(b: seq<char>, at: nat, n: int): (w: seq<char>)
    ensures 0 < n && at + n <= |b| ==> |w| == n && forall i :: 0 <= i < n ==> w[i] == b[at + i]
    ensures n <= 0 ==> w == []
  {
    if 0 < n && at + n <= |b| then b[at..at + n] else []
  }

  lemma WindowMoves(b: seq<char>, at: nat, n: nat, k: nat)
    requires k <= n && 0 < n && at + n <= |b|
    ensures Window(b, at + k, n - k) == Window(b, at, n)[k..]
  {
  }

  class RioBuffer {
    const fd: Source
    const buf: array<char>
    var cnt: int
    var bufptr: nat

    ghost predicate Valid()
      reads this
    {
      && buf.Length == RIO_BUFSIZE
      && -1 <= cnt
      && (cnt > 0 ==> bufptr + cnt <= RIO_BUFSIZE)
    }

    /** The stream still to be read: what is buffered, then what the descriptor will deliver. */
    ghost function Pending(): seq<char>
      reads this, buf, fd
      requires Valid()
    {
      Window(buf[..], bufptr, cnt) + fd.data
    }

    constructor (fd: Source)
      ensures Valid() && this.fd == fd && fresh(buf) && Pending() == fd.data
    {
      this.fd := fd;
      buf := new char[RIO_BUFSIZE];
      cnt := 0;
      bufptr := 0;
    }

    /** Bytes that `rio_read` can copy without another `read` once it has refilled an empty buffer, or -1. */
    ghost function Available(): int
      reads this, fd
    {
      if cnt > 0 then cnt else Fetched(fd.script, |fd.data|)
    }

    /** One `read` into the empty buffer. */
    method Fetch()
      requires Valid() && cnt <= 0
      modifies this, buf, fd
      ensures Valid() && Pending() == old(Pending())
      ensures fd.script == Tail(old(fd.script))
      ensures ReadTo(old(fd.script), fd.script, cnt < 0 && fd.errno != Interrupt)
      ensures cnt <= 0 ==> fd.data == old(fd.data)
      ensures cnt < 0 <==> old(fd.script) != [] && !old(fd.script)[0].Deliver?
      ensures cnt < 0 ==> (fd.errno == Interrupt <==> old(fd.script)[0] == ReadInterrupted)
      ensures cnt >= 0 ==> cnt == Min(Offered(old(fd.script), RIO_BUFSIZE), |old(fd.data)|)
      ensures cnt == 0 ==> Pending() == []
    {
      hide ReadTo, Offered, Tail, Placed;
      ghost var data, before := fd.data, buf[..];
      cnt := fd.Read(buf, 0, RIO_BUFSIZE);
      if cnt > 0 {
        bufptr := 0;
        FirstPart(buf[..], before, data, cnt);
      }
    }

    /** Refills an empty buffer; 0 at the end of the stream, -1 on a hard error. */
    method Refill() returns (r: int)
      requires Valid()
      modifies this, buf, fd
      ensures Valid() && Pending() == old(Pending())
      ensures r == if old(Available()) < 0 then -1 else if old(Available()) == 0 then 0 else 1
      ensures r >= 0 ==> cnt == old(Available())
      ensures r < 0 ==> cnt <= 0
      ensures r == 0 ==> old(Pending()) == []
      ensures old(cnt) > 0 ==> fd.script == old(fd.script) && fd.data == old(fd.data)
      ensures old(cnt) <= 0 ==> fd.script == Tail(PastInterrupts(old(fd.script)))
      ensures ReadTo(old(fd.script), fd.script, r == -1)
    {
      hide ReadTo, Valid, Pending, Offered;
      ReadNothing(fd.script);
      ghost var before, available := fd.script, Available();
      ghost var past := Tail(PastInterrupts(before));
      while cnt <= 0
        invariant Valid() && Pending() == old(Pending())
        invariant old(cnt) > 0 ==> cnt == old(cnt) && fd.script == before && fd.data == old(fd.data)
        invariant cnt <= 0 ==> available == Fetched(fd.script, |fd.data|) && past == Tail(PastInterrupts(fd.script))
        invariant cnt > 0 ==> cnt == available
        invariant cnt > 0 && old(cnt) <= 0 ==> fd.script == past
        invariant ReadTo(before, fd.script, false)
        decreases |fd.script|, if cnt <= 0 then 1 else 0
      {
        ghost var script := fd.script;
        Fetch();
        ReadOn(before, script, fd.script, cnt < 0 && fd.errno != Interrupt);
        if cnt < 0 {
          if fd.errno != Interrupt {
            return -1;
          }
        } else if cnt == 0 {
          return 0;
        }
      }
      r := 1;
    }

    /** The copy out of a non-empty buffer. */
    method Take(usrbuf: array<char>, off: nat, n: nat) returns (k: nat)
      requires Valid() && cnt > 0 && usrbuf != buf && off + n <= usrbuf.Length
      modifies this, usrbuf
      ensures Valid()
      ensures k == Min(n, old(cnt)) && k <= |old(Pending())| && cnt == old(cnt) - k
      ensures k > 0 ==> bufptr > 0
      ensures Pending() == old(Pending())[k..]
      ensures Placed(usrbuf[..], old(usrbuf[..]), off, old(Pending())[..k])
    {
      hide Placed, Window;
      k := if cnt < n then cnt else n;
      ghost var buffered, before := Window(buf[..], bufptr, cnt), usrbuf[..];
      forall i | 0 <= i < k {
        usrbuf[off + i] := buf[bufptr + i];
      }
      TakenFrom(buffered, fd.data, k);
      PlacedByLoop(usrbuf[..], before, off, buffered[..k]);
      WindowMoves(buf[..], bufptr, cnt, k);
      bufptr := bufptr + k;
      cnt := cnt - k;
    }

    /** `rio_read`: min(n, bytes available), from the buffer alone unless it is empty. */
    method Read(usrbuf: array<char>, off: nat, n: nat) returns (r: int)
      requires Valid() && usrbuf != buf && off + n <= usrbuf.Length
      modifies this, buf, fd, usrbuf
      ensures Valid()
      ensures -1 <= r <= n
      ensures r == if old(Available()) < 0 then -1 else Min(n, old(Available()))
      ensures r >= 0 ==> cnt == old(Available()) - r
      ensures r > 0 ==> bufptr > 0
      ensures old(cnt) > 0 ==> fd.script == old(fd.script) && fd.data == old(fd.data)
      ensures old(cnt) <= 0 ==> fd.script == Tail(PastInterrupts(old(fd.script)))
      ensures ReadTo(old(fd.script), fd.script, r == -1)
      ensures r == -1 ==> cnt <= 0 && Pending() == old(Pending()) && usrbuf[..] == old(usrbuf[..])
      ensures r >= 0 ==>
                && r <= |old(Pending())|
                && (r == 0 <==> n == 0 || old(Pending()) == [])
                && Pending() == old(Pending())[r..]
                && Placed(usrbuf[..], old(usrbuf[..]), off, old(Pending())[..r])
    {
      hide ReadTo, Fetched, Placed;
      var filled := Refill();
      if filled <= 0 {
        NothingPlaced(usrbuf[..], off);
        return filled;
      }
      r := Take(usrbuf, off, n);
    }

    /** One turn of the loop of `rio_readnb`, behind the first bufp bytes. */
    method ReadPiece(usrbuf: array<char>, bufp: nat, nleft: nat, ghost pending: seq<char>, ghost before: seq<char>)
      returns (nread: int)
      requires Valid() && usrbuf != buf && 0 < nleft && bufp + nleft <= usrbuf.Length
      requires Copied(usrbuf[..], pending, before, bufp) && Pending() == pending[bufp..]
      modifies this, buf, fd, usrbuf
      ensures Valid() && -1 <= nread <= nleft
      ensures ReadTo(old(fd.script), fd.script, nread == -1)
      ensures nread == -1 ==> cnt <= 0 && usrbuf[..] == old(usrbuf[..]) && Pending() == pending[bufp..]
      ensures nread >= 0 ==>
                && Copied(usrbuf[..], pending, before, bufp + nread)
                && bufp + nread <= |pending| && Pending() == pending[bufp + nread..]
      ensures nread == 0 ==> cnt <= 0 && bufp == |pending|
      ensures nread > 0 ==> bufptr > 0
      ensures nleft <= old(cnt) ==>
                nread == nleft && cnt == old(cnt) - nleft && fd.script == old(fd.script) && fd.data == old(fd.data)
    {
      hide ReadTo, Valid, Pending, Copied, Placed, Available, Fetched, PastInterrupts;
      CopiedBounds(usrbuf[..], pending, before, bufp);
      ghost var now := usrbuf[..];
      FromTheBuffer();
      AtEnd();
      nread := Read(usrbuf, bufp, nleft);
      if nread >= 0 {
        CopiedMore(now, usrbuf[..], pending, before, bufp, nread);
      }
      AtEnd();
    }

    /**
     * `rio_readnb`: n bytes, or all that is left. A hard error is reported only when it is met: then the
     * buffer is empty and the fewer than n bytes before it are in usrbuf. No byte is fetched too early.
     */
    method ReadNb(usrbuf: array<char>, n: nat) returns (r: int)
      requires Valid() && usrbuf != buf && n <= usrbuf.Length
      modifies this, buf, fd, usrbuf
      ensures Valid()
      ensures r == -1 || r == Min(n, |old(Pending())|)
      ensures ReadTo(old(fd.script), fd.script, r == -1)
      ensures n <= old(cnt) ==> fd.script == old(fd.script) && fd.data == old(fd.data)
      ensures r > 0 ==> bufptr > 0 || cnt <= 0
      ensures r == -1 ==> cnt <= 0 && StoppedAfter(old(Pending()), Pending(), usrbuf[..], old(usrbuf[..]), n)
      ensures r >= 0 ==>
                && usrbuf[..r] == old(Pending())[..r]
                && usrbuf[r..] == old(usrbuf[..])[r..]
                && Pending() == old(Pending())[r..]
    {
      hide ReadTo, Valid, Pending, Copied, StoppedAfter;
      ghost var pending, before, script := Pending(), usrbuf[..], fd.script;
      var nleft: nat := n;
      var bufp: nat := 0;
      NothingCopied(before, pending);
      ReadNothing(script);
      while nleft > 0
        invariant Valid() && bufp + nleft == n && bufp <= |pending|
        invariant Copied(usrbuf[..], pending, before, bufp)
        invariant Pending() == pending[bufp..]
        invariant ReadTo(script, fd.script, false)
        invariant n <= old(cnt) && nleft > 0 ==> cnt == old(cnt) && bufp == 0
        invariant n <= old(cnt) ==> fd.script == script && fd.data == old(fd.data)
        invariant bufp > 0 ==> bufptr > 0 || cnt <= 0
        decreases nleft
      {
        ghost var now := fd.script;
        var nread := ReadPiece(usrbuf, bufp, nleft, pending, before);
        ReadOn(script, now, fd.script, nread == -1);
        if nread < 0 {
          StoppedAt(pending, bufp, usrbuf[..], before, n);
          return -1;
        }
        if nread == 0 {
          break;
        }
        nleft := nleft - nread;
        bufp := bufp + nread;
      }
      CopiedAll(usrbuf[..], pending, before, bufp);
      r := n - nleft;
    }

    lemma FromTheBuffer()
      ensures cnt > 0 ==> Available() == cnt
    {
    }

    lemma AtEnd()
      requires Valid()
      ensures Pending() == [] ==> cnt <= 0
    {
    }

    /** `rio_read` of a single byte. */
    method ReadByte() returns (rc: int, c: char)
      requires Valid()
      modifies this, buf, fd
      ensures Valid() && -1 <= rc <= 1
      ensures rc == 1 ==> old(Pending()) != [] && c == old(Pending())[0] && Pending() == old(Pending())[1..]
      ensures rc == 1 ==> bufptr > 0
      ensures rc == 0 ==> old(Pending()) == [] && Pending() == []
      ensures rc == -1 ==> cnt <= 0 && Pending() == old(Pending())
      ensures ReadTo(old(fd.script), fd.script, rc == -1)
      ensures old(cnt) > 0 ==> fd.script == old(fd.script) && fd.data == old(fd.data)
    {
      hide ReadTo, Valid, Pending, Available, PastInterrupts;
      var one := new char[1];
      ghost var pending := Pending();
      rc := Read(one, 0, 1);
      c := one[0];
      assert rc == 1 ==> one[..][0] == pending[..1][0];
    }

    /** One turn of the loop of `rio_readlineb`: a byte behind the first `at` ones. */
    method ReadByteInto(usrbuf: array<char>, at: nat) returns (rc: int, c: char)
      requires Valid() && usrbuf != buf && at < usrbuf.Length
      modifies this, buf, fd, usrbuf
      ensures Valid() && -1 <= rc <= 1
      ensures rc == 1 ==>
                && old(Pending()) != [] && c == old(Pending())[0] && Pending() == old(Pending())[1..]
                && bufptr > 0
                && Placed(usrbuf[..], old(usrbuf[..]), at, [c])
      ensures rc == 0 ==> old(Pending()) == []
      ensures rc == -1 ==> cnt <= 0
      ensures ReadTo(old(fd.script), fd.script, rc == -1)
      ensures rc != 1 ==> Pending() == old(Pending()) && usrbuf[..] == old(usrbuf[..])
    {
      hide ReadTo, Placed;
      rc, c := ReadByte();
      if rc == 1 {
        ghost var before := usrbuf[..];
        usrbuf[at] := c;
        PlacedByLoop(usrbuf[..], before, at, [c]);
      }
    }

    /** The same in the middle of a line of which n - 1 bytes are read. */
    method ReadLineByte(usrbuf: array<char>, n: nat, maxlen: nat, ghost pending: seq<char>, ghost before: seq<char>)
      returns (rc: int, c: char)
      requires Valid() && usrbuf != buf && 1 <= n < maxlen <= usrbuf.Length
      requires LineSoFar(pending, n - 1, maxlen - n, Pending())
      requires Copied(usrbuf[..], pending, before, n - 1)
      modifies this, buf, fd, usrbuf
      ensures Valid() && -1 <= rc <= 1 && n - 1 <= |pending|
      ensures ReadTo(old(fd.script), fd.script, rc == -1)
      ensures rc == 1 ==> n <= |pending| && bufptr > 0 && Copied(usrbuf[..], pending, before, n)
      ensures rc == 1 && c != '\n' ==> LineSoFar(pending, n, maxlen - n - 1, Pending())
      ensures rc == 1 && c == '\n' ==> Pending() == pending[n..] && n == LineLength(pending, maxlen - 1)
      ensures rc != 1 ==> cnt <= 0 && Pending() == pending[n - 1..] && Copied(usrbuf[..], pending, before, n - 1)
      ensures rc == 0 ==> Pending() == [] && n - 1 == LineLength(pending, maxlen - 1)
      ensures rc == -1 ==> '\n' !in pending[..n - 1]
    {
      hide LineLength, ReadTo, Valid, Pending, LineSoFar, Placed, Copied;
      ghost var now, rest := usrbuf[..], Pending();
      LineGrows(pending, n - 1, maxlen - n, rest);
      CopiedBounds(now, pending, before, n - 1);
      rc, c := ReadByteInto(usrbuf, n - 1);
      AtEnd();
      if rc == 1 {
        CopiedMore(now, usrbuf[..], pending, before, n - 1, 1);
      }
    }

    /** The loop of `rio_readlineb`; n counts from 1, and rc is the result of the last read. */
    method ReadLineBytes(usrbuf: array<char>, maxlen: nat) returns (n: nat, rc: int)
      requires Valid() && usrbuf != buf && 1 <= usrbuf.Length && maxlen <= usrbuf.Length
      modifies this, buf, fd, usrbuf
      ensures Valid()
      ensures 1 <= n <= AtMost(maxlen) + 1 && n - 1 <= |old(Pending())|
      ensures Pending() == old(Pending())[n - 1..]
      ensures Copied(usrbuf[..], old(Pending()), old(usrbuf[..]), n - 1)
      ensures -1 <= rc <= 1 && (rc != 1 ==> n < maxlen)
      ensures rc == 1 && n == 1 ==> maxlen <= 1
      ensures rc == 0 ==> Pending() == []
      ensures rc == -1 ==> cnt <= 0 && '\n' !in old(Pending())[..n - 1]
      ensures ReadTo(old(fd.script), fd.script, rc == -1)
      ensures n > 1 ==> bufptr > 0 || cnt <= 0
      ensures rc != -1 ==> n - 1 == LineLength(old(Pending()), AtMost(maxlen))
    {
      hide LineLength, ReadTo, Valid, Pending, LineSoFar, Copied;
      ghost var pending, before, script := Pending(), usrbuf[..], fd.script;
      n, rc := 1, 1;
      LineStarts(pending, AtMost(maxlen));
      NothingCopied(before, pending);
      ReadNothing(script);
      while n < maxlen
        invariant Valid() && 1 <= n <= AtMost(maxlen) + 1
        invariant LineSoFar(pending, n - 1, AtMost(maxlen) + 1 - n, Pending())
        invariant Copied(usrbuf[..], pending, before, n - 1)
        invariant ReadTo(script, fd.script, false)
        invariant n > 1 ==> bufptr > 0
        invariant rc == 1
        decreases AtMost(maxlen) - n
      {
        ghost var calls := fd.script;
        var c;
        rc, c := ReadLineByte(usrbuf, n, maxlen, pending, before);
        ReadOn(script, calls, fd.script, rc == -1);
        if rc != 1 {
          return;
        }
        n := n + 1;
        if c == '\n' {
          return;
        }
      }
      LineGrows(pending, n - 1, 0, Pending());
    }

    /**
     * `rio_readlineb`: a line of at most maxlen - 1 bytes, with a NUL behind it even if maxlen is 0. A hard
     * error is reported only when it is met in the middle of a line, with the buffer empty.
     */
    method ReadLineB(usrbuf: array<char>, maxlen: nat) returns (r: int)
      requires Valid() && usrbuf != buf && 1 <= usrbuf.Length && maxlen <= usrbuf.Length
      modifies this, buf, fd, usrbuf
      ensures Valid()
      ensures r == -1 || r == LineLength(old(Pending()), AtMost(maxlen))
      ensures ReadTo(old(fd.script), fd.script, r == -1)
      ensures r == -1 ==>
                && cnt <= 0
                && StoppedAfter(old(Pending()), Pending(), usrbuf[..], old(usrbuf[..]), AtMost(maxlen))
                && '\n' !in Taken(old(Pending()), Pending())
      ensures r >= 0 ==> r <= AtMost(maxlen) && usrbuf[..r] == old(Pending())[..r] && Pending() == old(Pending())[r..]
      ensures r > 0 ==> bufptr > 0 || cnt <= 0
      ensures r > 0 || (r == 0 && maxlen <= 1) ==> usrbuf[r] == '\0' && usrbuf[r + 1..] == old(usrbuf[..])[r + 1..]
      ensures r == 0 && maxlen > 1 ==> usrbuf[..] == old(usrbuf[..])
    {
      hide LineLength, ReadTo, Valid, Pending, StoppedAfter, Copied;
      ghost var pending, before := Pending(), usrbuf[..];
      var n, rc := ReadLineBytes(usrbuf, maxlen);
      CopiedAll(usrbuf[..], pending, before, n - 1);
      if rc == -1 {
        StoppedAt(pending, n - 1, usrbuf[..], before, AtMost(maxlen));
        TakenIs(pending, n - 1);
        return -1;
      }
      if rc == 0 && n == 1 {
        assert usrbuf[..] == usrbuf[..][0..] && before == before[0..];
        return 0;
      }
      ghost var line := usrbuf[..];
      usrbuf[n - 1] := '\0';
      assert usrbuf[..n - 1] == line[..n - 1];
      assert usrbuf[n..] == line[n - 1..][1..] == before[n - 1..][1..] == before[n..];
      r := n - 1;
    }
  }

  /** What was read when of s only `rest` is left. */
  ghost function Taken(s: seq<char>, rest: seq<char>): seq<char> {
    if |rest| <= |s| then s[..|s| - |rest|] else []
  }

  /** Fewer than max bytes were taken and stored before a hard error. */
  ghost predicate StoppedAfter(s: seq<char>, rest: seq<char>, now: seq<char>, before: seq<char>, max: nat) {
    && |rest| <= |s| && |Taken(s, rest)| < max <= |now|
    && s == Taken(s, rest) + rest
    && |now| == |before|
    && now == Taken(s, rest) + before[|Taken(s, rest)|..]
  }

  lemma StoppedAt(s: seq<char>, k: nat, now: seq<char>, before: seq<char>, n: nat)
    requires Copied(now, s, before, k) && k < n <= |now|
    ensures StoppedAfter(s, s[k..], now, before, n)
  {
    assert s == s[..k] + s[k..];
  }

  lemma TakenIs(s: seq<char>, k: nat)
    requires k <= |s|
    ensures Taken(s, s[k..]) == s[..k]
  {
  }

  lemma FirstPart(now: seq<char>, before: seq<char>, data: seq<char>, k: nat)
    requires k <= |data| && Placed(now, before, 0, data[..k])
    ensures Window(now, 0, k) + data[k..] == data
  {
    var others := before[k..];
    assert now == data[..k] + others;
    assert Window(now, 0, k) == data[..k];
    assert data[..k] + data[k..] == data;
  }

  lemma TakenFrom(buffered: seq<char>, data: seq<char>, k: nat)
    requires k <= |buffered|
    ensures (buffered + data)[k..] == buffered[k..] + data
    ensures (buffered + data)[..k] == buffered[..k]
  {
  }

  lemma CopiedParts(pending: seq<char>, before: seq<char>, done: nat)
    requires done <= |pending| && done <= |before|
    ensures (pending[..done] + before[done..])[..done] == pending[..done]
    ensures (pending[..done] + before[done..])[done..] == before[done..]
  {
  }

  /** The first `done` bytes of the buffer come from s, the others are as before. */
  ghost predicate Copied(now: seq<char>, s: seq<char>, before: seq<char>, done: nat) {
    done <= |s| && done <= |before| && now == s[..done] + before[done..]
  }

  lemma CopiedBounds(now: seq<char>, s: seq<char>, before: seq<char>, done: nat)
    requires Copied(now, s, before, done)
    ensures done <= |s| && done <= |before| && |now| == |before|
  {
  }

  lemma CopiedMore(now: seq<char>, later: seq<char>, s: seq<char>, before: seq<char>, done: nat, more: nat)
    requires Copied(now, s, before, done) && done + more <= |s| && done + more <= |before|
    requires Placed(later, now, done, s[done..][..more])
    ensures Copied(later, s, before, done + more)
    ensures s[done..][more..] == s[done + more..]
  {
    AdvanceCopied(s, before, done, more);
  }

  lemma CopiedAll(now: seq<char>, s: seq<char>, before: seq<char>, done: nat)
    requires Copied(now, s, before, done)
    ensures done <= |s| && done <= |now| && now[..done] == s[..done] && now[done..] == before[done..]
  {
    CopiedParts(s, before, done);
  }

  /** One more piece copied behind the first `done` bytes. */
  lemma AdvanceCopied(pending: seq<char>, before: seq<char>, done: nat, more: nat)
    requires done + more <= |pending| && done + more <= |before|
    ensures var now := pending[..done] + before[done..];
            now[..done] + pending[done..][..more] + now[done + more..]
            == pending[..done + more] + before[done + more..]
    ensures pending[done..][more..] == pending[done + more..]
  {
    var now := pending[..done] + before[done..];
    assert now[..done] == pending[..done];
    assert now[done + more..] == before[done + more..];
    assert pending[..done] + pending[done..][..more] == pending[..done + more];
  }

  /** One turn of the loop of `rio_readn`: an interrupted `read` brings nothing, but does not end the loop. */
  method ReadSome(fd: Source, usrbuf: array<char>, off: nat, n: nat) returns (nread: int, eof: bool)
    requires off + n <= usrbuf.Length && n > 0
    modifies fd, usrbuf
    ensures -1 <= nread <= n
    ensures fd.script == Tail(old(fd.script)) && ReadTo(old(fd.script), fd.script, nread == -1)
    ensures nread == -1 ==> fd.data == old(fd.data) && usrbuf[..] == old(usrbuf[..]) && !eof
    ensures nread >= 0 ==>
              && nread == Min(Offered(old(fd.script), n), |old(fd.data)|)
              && fd.data == old(fd.data)[nread..]
              && Placed(usrbuf[..], old(usrbuf[..]), off, old(fd.data)[..nread])
    ensures eof ==> nread == 0 && fd.data == []
    ensures nread == 0 && !eof ==> |fd.script| < |old(fd.script)|
  {
    hide Placed;
    eof := false;
    nread := fd.Read(usrbuf, off, n);
    if nread < 0 {
      NothingPlaced(usrbuf[..], off);
      if fd.errno == Interrupt {
        nread := 0;
      }
    } else {
      eof := nread == 0;
    }
  }

  /**
   * `rio_readn`: the unbuffered form. Here, too, an error is reported only when it is met, and a single
   * `read` is made if it brings all n bytes.
   */
  method ReadN(fd: Source, usrbuf: array<char>, n: nat) returns (r: int)
    requires n <= usrbuf.Length
    modifies fd, usrbuf
    ensures r == -1 || r == Min(n, |old(fd.data)|)
    ensures ReadTo(old(fd.script), fd.script, r == -1)
    ensures n > 0 && n == Min(Offered(old(fd.script), n), |old(fd.data)|) ==> fd.script == Tail(old(fd.script))
    ensures n == 0 ==> fd.script == old(fd.script)
    ensures r == -1 ==> StoppedAfter(old(fd.data), fd.data, usrbuf[..], old(usrbuf[..]), n)
    ensures r >= 0 ==>
              && usrbuf[..r] == old(fd.data)[..r]
              && usrbuf[r..] == old(usrbuf[..])[r..]
              && fd.data == old(fd.data)[r..]
  {
    hide ReadTo, Copied, Placed, StoppedAfter, Offered;
    ghost var data, before := fd.data, usrbuf[..];
    var nleft: nat := n;
    var bufp: nat := 0;
    NothingCopied(before, data);
    ReadNothing(fd.script);
    ghost var whole := n > 0 && n == Min(Offered(old(fd.script), n), |old(fd.data)|);
    while nleft > 0
      invariant bufp + nleft == n && bufp <= |data|
      invariant Copied(usrbuf[..], data, before, bufp)
      invariant fd.data == data[bufp..]
      invariant ReadTo(old(fd.script), fd.script, false)
      invariant whole ==> fd.script == if nleft > 0 then old(fd.script) else Tail(old(fd.script))
      invariant whole && nleft > 0 ==> bufp == 0
      invariant n == 0 ==> fd.script == old(fd.script)
      decreases |fd.script|, nleft
    {
      ghost var now, script := usrbuf[..], fd.script;
      var nread, eof := ReadSome(fd, usrbuf, bufp, nleft);
      ReadOn(old(fd.script), script, fd.script, nread == -1);
      if nread < 0 {
        StoppedAt(data, bufp, now, before, n);
        return -1;
      }
      CopiedMore(now, usrbuf[..], data, before, bufp, nread);
      if eof {
        break;
      }
      nleft := nleft - nread;
      bufp := bufp + nread;
    }
    CopiedAll(usrbuf[..], data, before, bufp);
    r := n - nleft;
  }

  lemma NothingCopied(before: seq<char>, s: seq<char>)
    ensures Copied(before, s, before, 0) && s[0..] == s
  {
  }

  /** The first k bytes of s are written. */
  ghost predicate Sent(before: seq<char>, written: seq<char>, s: seq<char>, k: nat) {
    k <= |s| && written == before + s[..k]
  }

  lemma NothingSent(before: seq<char>, s: seq<char>)
    ensures Sent(before, before, s, 0)
  {
  }

  lemma MoreSent(before: seq<char>, written: seq<char>, s: seq<char>, k: nat, m: nat)
    requires Sent(before, written, s, k) && k + m <= |s|
    ensures Sent(before, written + s[k..k + m], s, k + m)
  {
    assert s[..k] + s[k..k + m] == s[..k + m];
  }

  /** One turn of the loop of `rio_writen`: an interrupted `write` takes nothing, but does not end the loop. */
  method WriteSome(fd: Sink, usrbuf: array<char>, off: nat, n: nat) returns (nwritten: int)
    requires off + n <= usrbuf.Length && n > 0
    modifies fd
    ensures -1 <= nwritten <= n
    ensures fd.script == Tail(old(fd.script)) && WroteTo(old(fd.script), fd.script, nwritten == -1)
    ensures nwritten >= 0 ==> nwritten == Accepted(old(fd.script), n)
    ensures nwritten == -1 ==> fd.written == old(fd.written)
    ensures nwritten >= 0 ==> fd.written == old(fd.written) + usrbuf[..][off..off + nwritten]
    ensures nwritten <= 0 ==> |fd.script| < |old(fd.script)|
  {
    nwritten := fd.Write(usrbuf, off, n);
    if nwritten <= 0 {
      if fd.errno == Interrupt {
        nwritten := 0;
      } else {
        nwritten := -1;
      }
    }
    assert nwritten >= 0 ==> usrbuf[off..off + nwritten] == usrbuf[..][off..off + nwritten];
  }

  /**
   * `rio_writen`: all n bytes in order, or -1 after a proper prefix, when an error is met. A single `write`
   * is made if the descriptor takes all n bytes at once.
   */
  method WriteN(fd: Sink, usrbuf: array<char>, n: nat) returns (r: int)
    requires n <= usrbuf.Length
    modifies fd
    ensures r == -1 || r == n
    ensures r == n ==> fd.written == old(fd.written) + usrbuf[..n]
    ensures r == -1 ==> exists k: nat :: k < n && fd.written == old(fd.written) + usrbuf[..k]
    ensures WroteTo(old(fd.script), fd.script, r == -1)
    ensures n > 0 && n == Accepted(old(fd.script), n) ==> fd.script == Tail(old(fd.script))
    ensures n == 0 ==> fd.script == old(fd.script)
  {
    hide WroteTo, Sent, Accepted;
    ghost var script, before := fd.script, fd.written;
    var nleft: nat := n;
    var bufp: nat := 0;
    WroteNothing(script);
    NothingSent(before, usrbuf[..]);
    ghost var whole := n > 0 && n == Accepted(script, n);
    while nleft > 0
      invariant bufp + nleft == n
      invariant Sent(before, fd.written, usrbuf[..], bufp)
      invariant WroteTo(script, fd.script, false)
      invariant whole ==> fd.script == if nleft > 0 then script else Tail(script)
      invariant whole && nleft > 0 ==> bufp == 0
      invariant n == 0 ==> fd.script == script
      decreases |fd.script|, nleft
    {
      ghost var now, written := fd.script, fd.written;
      var nwritten := WriteSome(fd, usrbuf, bufp, nleft);
      WroteOn(script, now, fd.script, nwritten == -1);
      if nwritten < 0 {
        WhatIsSent(before, fd.written, usrbuf[..], bufp);
        assert usrbuf[..][..bufp] == usrbuf[..bufp];
        return -1;
      }
      MoreSent(before, written, usrbuf[..], bufp, nwritten);
      nleft := nleft - nwritten;
      bufp := bufp + nwritten;
    }
    WhatIsSent(before, fd.written, usrbuf[..], n);
    assert usrbuf[..][..n] == usrbuf[..n];
    r := n;
  }

  lemma WhatIsSent(before: seq<char>, written: seq<char>, s: seq<char>, k: nat)
    requires Sent(before, written, s, k)
    ensures k <= |s| && written == before + s[..k]
  {
  }
}
