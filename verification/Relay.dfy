// Streams of requests over one Rio buffer, and the proxy's relay loop.
module Relay {
  import opened Descriptor
  import opened Rio

  const BUFFER_SIZE: nat := 4096

  // ----- Any interleaving of reads is a reading of the plain stream

  datatype Request = Bytes(n: nat) | TextLine(maxlen: nat)

  predicate ValidRequest(q: Request) {
    q.TextLine? ==> q.maxlen >= 2
  }

  /** How many bytes of the stream a request gets. */
  function ReplyLength(stream: seq<char>, q: Request): (n: nat)
    requires ValidRequest(q)
    ensures n <= |stream|
  {
    match q
    case Bytes(n) => Min(n, |stream|)
    case TextLine(maxlen) => LineLength(stream, maxlen - 1)
  }

  predicate ValidRequests(qs: seq<Request>) {
    forall i :: 0 <= i < |qs| ==> ValidRequest(qs[i])
  }

  /** The replies to a sequence of requests, as pieces of the plain stream. */
  function Replies(stream: seq<char>, qs: seq<Request>): seq<seq<char>>
    requires ValidRequests(qs)
  {
    if qs == [] then []
    else
      var n := ReplyLength(stream, qs[0]);
      [stream[..n]] + Replies(stream[n..], qs[1..])
  }

  function Rest(stream: seq<char>, qs: seq<Request>): seq<char>
    requires ValidRequests(qs)
  {
    if qs == [] then stream else Rest(stream[ReplyLength(stream, qs[0])..], qs[1..])
  }

  function Flatten(pieces: seq<seq<char>>): seq<char> {
    if pieces == [] then [] else pieces[0] + Flatten(pieces[1..])
  }

  lemma FlattenNothing()
    ensures Flatten([]) == []
  {
  }

  lemma {:induction false} FlattenCons(p: seq<char>, ps: seq<seq<char>>)
    ensures Flatten([p] + ps) == p + Flatten(ps)
  {
    assert ([p] + ps)[1..] == ps;
  }

  lemma Glue(s: seq<char>, n: nat, a: seq<char>, b: seq<char>)
    requires n <= |s| && a + b == s[n..]
    ensures (s[..n] + a) + b == s
  {
    assert (s[..n] + a) + b == s[..n] + (a + b);
  }

  /** No byte is lost or duplicated: the replies are consecutive pieces of the stream. */
  lemma {:induction false} RepliesAreConsecutive(stream: seq<char>, qs: seq<Request>)
    requires ValidRequests(qs)
    ensures Flatten(Replies(stream, qs)) + Rest(stream, qs) == stream
  {
    hide ReplyLength, Flatten;
    if qs == [] {
      FlattenNothing();
    } else {
      var n := ReplyLength(stream, qs[0]);
      RepliesAreConsecutive(stream[n..], qs[1..]);
      FlattenCons(stream[..n], Replies(stream[n..], qs[1..]));
      Glue(stream, n, Flatten(Replies(stream[n..], qs[1..])), Rest(stream[n..], qs[1..]));
    }
  }

  method Serve(rio: RioBuffer, q: Request) returns (ok: bool, reply: seq<char>)
    requires rio.Valid() && ValidRequest(q)
    modifies rio, rio.buf, rio.fd
    ensures rio.Valid()
    ensures ReadTo(old(rio.fd.script), rio.fd.script, !ok)
    ensures ok ==> var n := ReplyLength(old(rio.Pending()), q);
                   reply == old(rio.Pending())[..n] && rio.Pending() == old(rio.Pending())[n..]
  {
    hide ReadTo, rio.Valid, rio.Pending, LineLength, StoppedAfter;
    var size := if q.Bytes? then q.n else q.maxlen;
    var usrbuf := new char[size];
    var r;
    match q {
      case Bytes(n) => r := rio.ReadNb(usrbuf, n);
      case TextLine(maxlen) => r := rio.ReadLineB(usrbuf, maxlen);
    }
    if r < 0 {
      return false, [];
    }
    return true, usrbuf[..r];
  }

  /** The results depend on the stream alone, not on how `read` cuts it up. */
  method ServeAll(rio: RioBuffer, qs: seq<Request>) returns (ok: bool, replies: seq<seq<char>>)
    requires rio.Valid() && ValidRequests(qs)
    modifies rio, rio.buf, rio.fd
    ensures rio.Valid()
    ensures ReadTo(old(rio.fd.script), rio.fd.script, !ok)
    ensures Reliable(old(rio.fd.script)) ==> ok
    ensures ok ==> replies == Replies(old(rio.Pending()), qs) && rio.Pending() == Rest(old(rio.Pending()), qs)
  {
    hide ReadTo, Reliable, rio.Valid, rio.Pending, ReplyLength;
    ghost var stream, script := rio.Pending(), rio.fd.script;
    ReadNothing(script);
    replies := [];
    for i := 0 to |qs|
      invariant rio.Valid()
      invariant ReadTo(script, rio.fd.script, false)
      invariant ValidRequests(qs[i..])
      invariant replies + Replies(rio.Pending(), qs[i..]) == Replies(stream, qs)
      invariant Rest(rio.Pending(), qs[i..]) == Rest(stream, qs)
    {
      ghost var pending, now := rio.Pending(), rio.fd.script;
      var served, reply := Serve(rio, qs[i]);
      ReadOn(script, now, rio.fd.script, !served);
      if !served {
        ReadReliably(script, rio.fd.script, true);
        return false, [];
      }
      assert qs[i..][0] == qs[i] && qs[i..][1..] == qs[i + 1..];
      assert Replies(pending, qs[i..]) == [reply] + Replies(rio.Pending(), qs[i + 1..]);
      replies := replies + [reply];
    }
    ok := true;
  }

  // ----- The relay loop

  ghost predicate IsPrefix(p: seq<char>, s: seq<char>) {
    |p| <= |s| && p == s[..|p|]
  }

  /** The client has the first `done` bytes of the stream, and the rest is still to be read. */
  ghost predicate Relayed(stream: seq<char>, done: nat, before: seq<char>, written: seq<char>, rest: seq<char>) {
    done <= |stream| && written == before + stream[..done] && rest == stream[done..]
  }

  lemma NothingRelayed(stream: seq<char>, before: seq<char>)
    ensures Relayed(stream, 0, before, before, stream)
  {
  }

  lemma AllRelayed(stream: seq<char>, done: nat, before: seq<char>, written: seq<char>)
    requires Relayed(stream, done, before, written, [])
    ensures written == before + stream
  {
    assert stream[..done] == stream;
  }

  lemma MoreRelayed(stream: seq<char>, done: nat, before: seq<char>, written: seq<char>,
                    rest: seq<char>, more: nat)
    requires Relayed(stream, done, before, written, rest) && more <= |rest|
    ensures Relayed(stream, done + more, before, written + rest[..more], rest[more..])
    ensures done + more <= |stream|
  {
    assert stream[..done] + rest[..more] == stream[..done + more];
  }

  /** What the relay leaves behind when it stops: bytes sent, bytes read but not sent, and the rest. */
  ghost predicate Split(stream: seq<char>, sent: seq<char>, part: seq<char>, rest: seq<char>) {
    stream == sent + part + rest
  }

  /** A line as `rio_readlineb` delivers it: a newline at most at its end. */
  predicate IsLine(s: seq<char>) {
    0 < |s| < BUFFER_SIZE && forall i :: 0 <= i < |s| - 1 ==> s[i] != '\n'
  }

  /** After a failed read at most the beginning of one line is lost. */
  ghost predicate StoppedReading(stream: seq<char>, before: seq<char>, written: seq<char>, rest: seq<char>) {
    exists sent, part :: Split(stream, sent, part, rest) && written == before + sent
                         && '\n' !in part && |part| < BUFFER_SIZE - 1
  }

  /** After a failed write at most the end of one line is lost. */
  ghost predicate StoppedWriting(stream: seq<char>, before: seq<char>, written: seq<char>, rest: seq<char>) {
    exists sent, part :: Split(stream, sent, part, rest) && written == before + sent && IsLine(part)
  }

  lemma ReadStops(stream: seq<char>, done: nat, before: seq<char>, written: seq<char>, pending: seq<char>,
                  rest: seq<char>)
    requires Relayed(stream, done, before, written, pending)
    requires |rest| <= |pending| && pending == Taken(pending, rest) + rest
    requires '\n' !in Taken(pending, rest) && |Taken(pending, rest)| < BUFFER_SIZE - 1
    ensures StoppedReading(stream, before, written, rest)
  {
    var part := Taken(pending, rest);
    assert stream == stream[..done] + (part + rest) == stream[..done] + part + rest;
    assert Split(stream, stream[..done], part, rest);
  }

  lemma FourParts(d: seq<char>, line: seq<char>, k: nat, rest: seq<char>)
    requires k <= |line|
    ensures d + (line + rest) == (d + line[..k]) + line[k..] + rest
  {
  }

  lemma EndOfLine(line: seq<char>, k: nat)
    requires IsLine(line) && k < |line|
    ensures IsLine(line[k..])
  {
  }

  lemma RelayedParts(stream: seq<char>, done: nat, before: seq<char>, written: seq<char>, rest: seq<char>, n: nat)
    requires Relayed(stream, done, before, written, rest) && n <= |rest|
    ensures done <= |stream| && written == before + stream[..done]
    ensures stream == stream[..done] + (rest[..n] + rest[n..])
  {
    assert rest[..n] + rest[n..] == rest;
    assert stream == stream[..done] + stream[done..];
  }

  lemma WriteStops(stream: seq<char>, done: nat, before: seq<char>, written: seq<char>, pending: seq<char>,
                   n: nat, buf: seq<char>, written': seq<char>)
    requires Relayed(stream, done, before, written, pending)
    requires n <= |pending| && n <= |buf| && buf[..n] == pending[..n] && IsLine(pending[..n])
    requires exists k: nat :: k < n && written' == written + buf[..k]
    ensures StoppedWriting(stream, before, written', pending[n..])
  {
    hide Relayed, IsLine;
    var k: nat :| k < n && written' == written + buf[..k];
    var line := pending[..n];
    assert buf[..n][..k] == buf[..k];
    RelayedParts(stream, done, before, written, pending, n);
    FourParts(stream[..done], line, k, pending[n..]);
    EndOfLine(line, k);
    assert Split(stream, stream[..done] + line[..k], line[k..], pending[n..]);
    assert (before + stream[..done]) + line[..k] == before + (stream[..done] + line[..k]);
  }

  lemma PrefixRelayed(stream: seq<char>, done: nat, before: seq<char>, written: seq<char>, rest: seq<char>)
    requires Relayed(stream, done, before, written, rest)
    ensures exists sent :: IsPrefix(sent, stream) && written == before + sent
  {
    assert IsPrefix(stream[..done], stream);
  }

  lemma PrefixStopped(stream: seq<char>, before: seq<char>, written: seq<char>, rest: seq<char>)
    requires StoppedReading(stream, before, written, rest) || StoppedWriting(stream, before, written, rest)
    ensures exists sent :: IsPrefix(sent, stream) && written == before + sent
  {
    var sent, part :| Split(stream, sent, part, rest) && written == before + sent;
    assert IsPrefix(sent, stream);
  }

  /** A line of the stream, as a piece of it. */
  lemma {:induction false} LineOf(s: seq<char>, n: nat)
    requires 0 < n == LineLength(s, BUFFER_SIZE - 1)
    ensures IsLine(s[..n])
  {
    LineIsALine(s, BUFFER_SIZE - 1);
  }

  /**
   * Forwards the response line by line. True when the loop is left normally, false when a Rio wrapper
   * ends the process. Each line is sent before the next one is read, so that a failure loses at most a
   * part of one line.
   */
  method Forward(web: RioBuffer, client: Sink) returns (ok: bool)
    requires web.Valid()
    modifies web, web.buf, web.fd, client
    ensures web.Valid()
    ensures ok ==> client.written == old(client.written) + old(web.Pending()) && web.Pending() == []
    ensures ok ==> ReadTo(old(web.fd.script), web.fd.script, false) && WroteTo(old(client.script), client.script, false)
    ensures !ok ==>
              || (ReadTo(old(web.fd.script), web.fd.script, true) && WroteTo(old(client.script), client.script, false)
                  && StoppedReading(old(web.Pending()), old(client.written), client.written, web.Pending()))
              || (ReadTo(old(web.fd.script), web.fd.script, false) && WroteTo(old(client.script), client.script, true)
                  && StoppedWriting(old(web.Pending()), old(client.written), client.written, web.Pending()))
    ensures exists sent :: IsPrefix(sent, old(web.Pending())) && client.written == old(client.written) + sent
    ensures Reliable(old(web.fd.script)) && ReliableSink(old(client.script)) ==> ok
  {
    hide Reliable, ReliableSink, ReadTo, WroteTo, web.Valid, web.Pending, LineLength, IsPrefix, Relayed, StoppedReading,
      StoppedWriting, IsLine, Taken;
    ghost var stream, before := web.Pending(), client.written;
    ghost var calls, writes := web.fd.script, client.script;
    ghost var done: nat := 0;
    var response := new char[BUFFER_SIZE];
    NothingRelayed(stream, before);
    ReadNothing(calls);
    WroteNothing(writes);
    while true
      invariant web.Valid() && done <= |stream|
      invariant Relayed(stream, done, before, client.written, web.Pending())
      invariant ReadTo(calls, web.fd.script, false) && WroteTo(writes, client.script, false)
      decreases |stream| - done
    {
      ghost var rest, written, now, now' := web.Pending(), client.written, web.fd.script, client.script;
      var bytes := web.ReadLineB(response, BUFFER_SIZE);
      ReadOn(calls, now, web.fd.script, bytes < 0);
      if bytes < 0 {
        ReadStops(stream, done, before, written, rest, web.Pending());
        PrefixStopped(stream, before, written, web.Pending());
        ReadReliably(calls, web.fd.script, true);
        return false;
      }
      LineIsALine(rest, BUFFER_SIZE - 1);
      if bytes == 0 {
        assert web.Pending() == rest == [];
        AllRelayed(stream, done, before, written);
        PrefixRelayed(stream, done, before, written, rest);
        return true;
      }
      LineOf(rest, bytes);
      var n := WriteN(client, response, bytes);
      WroteOn(writes, now', client.script, n == -1);
      if n != bytes {
        assert response[..][..bytes] == response[..bytes];
        assert forall k: nat :: k <= bytes ==> response[..][..k] == response[..k];
        WriteStops(stream, done, before, written, rest, bytes, response[..], client.written);
        PrefixStopped(stream, before, client.written, web.Pending());
        WroteReliably(writes, client.script, true);
        return false;
      }
      MoreRelayed(stream, done, before, written, rest, bytes);
      done := done + bytes;
    }
  }
}
