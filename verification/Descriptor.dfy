// The environment of the Rio package: `read` and `write` with short counts, interrupts and errors.
module Descriptor {

  datatype Errno = Interrupt | OtherError

  /** What the next `read` does: deliver at most `max` bytes (at least one), be interrupted, or fail. */
  datatype ReadEvent = Deliver(max: nat) | ReadInterrupted | ReadFailed

  /** What the next `write` does: accept at most `max` bytes (at least one), accept none, be interrupted, or fail. */
  datatype WriteEvent = Accept(max: nat) | AcceptNone | WriteInterrupted | WriteFailed

  function Min(a: nat, b: nat): nat {
    if a < b then a else b
  }

  function AtLeastOne(a: nat): nat {
    if a == 0 then 1 else a
  }

  /** No hard error is ahead. */
  predicate Reliable(script: seq<ReadEvent>) {
    forall i :: 0 <= i < |script| ==> script[i] != ReadFailed
  }

  /** No hard error is ahead, and no write that accepts nothing. */
  predicate ReliableSink(script: seq<WriteEvent>) {
    forall i :: 0 <= i < |script| ==> script[i] != WriteFailed && script[i] != AcceptNone
  }

  function Tail<T>(script: seq<T>): seq<T> {
    if script == [] then [] else script[1..]
  }

  /** How many bytes the next `read` of n bytes may deliver; none if it is interrupted or fails. */
  function Offered(script: seq<ReadEvent>, n: nat): nat {
    if script == [] then n
    else match script[0]
      case Deliver(max) => Min(AtLeastOne(max), n)
      case ReadInterrupted => 0
      case ReadFailed => 0
  }

  /** How many bytes the next `write` of n bytes accepts. */
  function Accepted(script: seq<WriteEvent>, n: nat): nat {
    if script == [] then n
    else match script[0]
      case Accept(max) => Min(AtLeastOne(max), n)
      case AcceptNone => 0
      case WriteInterrupted => 0
      case WriteFailed => 0
  }

  /** The reads from one point of the script to another: none failed, except the last one if `failed`. */
  ghost predicate ReadTo(before: seq<ReadEvent>, after: seq<ReadEvent>, failed: bool) {
    var k := |before| - |after|;
    && k >= 0 && after == before[k..]
    && (failed ==> k > 0)
    && forall i :: 0 <= i < k ==> (before[i] == ReadFailed <==> failed && i == k - 1)
  }

  lemma ReadNothing(script: seq<ReadEvent>)
    ensures ReadTo(script, script, false)
  {
  }

  lemma ReadOn(a: seq<ReadEvent>, b: seq<ReadEvent>, c: seq<ReadEvent>, failed: bool)
    requires ReadTo(a, b, false) && ReadTo(b, c, failed)
    ensures ReadTo(a, c, failed)
  {
    var k, m := |a| - |b|, |b| - |c|;
    assert a[k..][m..] == a[k + m..];
    assert forall i :: k <= i < k + m ==> a[i] == b[i - k];
  }

  lemma ReadReliably(a: seq<ReadEvent>, b: seq<ReadEvent>, failed: bool)
    requires ReadTo(a, b, failed)
    ensures failed ==> !Reliable(a)
    ensures Reliable(a) ==> Reliable(b)
  {
    var k := |a| - |b|;
    assert failed ==> a[k - 1] == ReadFailed;
    assert forall i :: 0 <= i < |b| ==> b[i] == a[k + i];
  }

  /** The same for writes; a write may also fail by accepting nothing. */
  ghost predicate WroteTo(before: seq<WriteEvent>, after: seq<WriteEvent>, failed: bool) {
    var k := |before| - |after|;
    && k >= 0 && after == before[k..]
    && (failed ==> k > 0 && (before[k - 1] == WriteFailed || before[k - 1] == AcceptNone))
    && forall i :: 0 <= i < k ==> before[i] == WriteFailed ==> failed && i == k - 1
  }

  lemma WroteNothing(script: seq<WriteEvent>)
    ensures WroteTo(script, script, false)
  {
  }

  lemma WroteOn(a: seq<WriteEvent>, b: seq<WriteEvent>, c: seq<WriteEvent>, failed: bool)
    requires WroteTo(a, b, false) && WroteTo(b, c, failed)
    ensures WroteTo(a, c, failed)
  {
    var k, m := |a| - |b|, |b| - |c|;
    assert a[k..][m..] == a[k + m..];
    assert forall i :: k <= i < k + m ==> a[i] == b[i - k];
  }

  lemma WroteReliably(a: seq<WriteEvent>, b: seq<WriteEvent>, failed: bool)
    requires WroteTo(a, b, failed)
    ensures failed ==> !ReliableSink(a)
    ensures ReliableSink(a) ==> ReliableSink(b)
  {
    var k := |a| - |b|;
    assert forall i :: 0 <= i < |b| ==> b[i] == a[k + i];
  }

  /** The bytes of `piece` were put into the buffer from position off on; the others are as before. */
  ghost predicate Placed(now: seq<char>, before: seq<char>, off: nat, piece: seq<char>) {
    off + |piece| <= |before| && now == before[..off] + piece + before[off + |piece|..]
  }

  lemma PlacedByLoop(now: seq<char>, before: seq<char>, off: nat, piece: seq<char>)
    requires |now| == |before| && off + |piece| <= |before|
    requires forall i :: 0 <= i < |now| ==> now[i] == if off <= i < off + |piece| then piece[i - off] else before[i]
    ensures Placed(now, before, off, piece)
  {
  }

  lemma NothingPlaced(now: seq<char>, off: nat)
    requires off <= |now|
    ensures Placed(now, now, off, [])
  {
  }

  /** A readable descriptor: the bytes still to come, and the behaviour of the coming calls. */
  class Source {
    var data: seq<char>
    var script: seq<ReadEvent>
    var errno: Errno

    constructor (data: seq<char>, script: seq<ReadEvent>)
      ensures this.data == data && this.script == script
    {
      this.data := data;
      this.script := script;
      errno := OtherError;
    }

    /** `read`: 0 only at the end of the stream, short counts and -1 as the script says. */
    method Read(buf: array<char>, off: nat, n: nat) returns (r: int)
      requires off + n <= buf.Length
      modifies this, buf
      ensures script == Tail(old(script))
      ensures ReadTo(old(script), script, r == -1 && errno != Interrupt)
      ensures -1 <= r <= n
      ensures r == -1 <==> old(script) != [] && !old(script)[0].Deliver?
      ensures r == -1 ==> data == old(data) && buf[..] == old(buf[..])
      ensures r == -1 ==> (errno == Interrupt <==> old(script)[0].ReadInterrupted?)
      ensures r >= 0 ==>
                && r <= |old(data)|
                && r == Min(Offered(old(script), n), |old(data)|)
                && (r == 0 <==> n == 0 || old(data) == [])
                && data == old(data)[r..]
                && Placed(buf[..], old(buf[..]), off, old(data)[..r])
    {
      var limit := n;
      if script != [] {
        var event := script[0];
        script := script[1..];
        match event {
          case ReadInterrupted =>
            errno := Interrupt;
            return -1;
          case ReadFailed =>
            errno := OtherError;
            return -1;
          case Deliver(max) =>
            limit := Min(AtLeastOne(max), n);
        }
      }
      var k := Min(limit, |data|);
      ghost var before, piece := buf[..], data[..k];
      forall i | 0 <= i < k {
        buf[off + i] := data[i];
      }
      PlacedByLoop(buf[..], before, off, piece);
      data := data[k..];
      r := k;
    }
  }

  /** A writable descriptor: the bytes accepted so far, and the behaviour of the coming calls. */
  class Sink {
    var written: seq<char>
    var script: seq<WriteEvent>
    var errno: Errno

    constructor (script: seq<WriteEvent>)
      ensures written == [] && this.script == script
    {
      written := [];
      this.script := script;
      errno := OtherError;
    }

    /** `write`: appends a prefix of the n bytes at off; 0 leaves errno as it was. */
    method Write(buf: array<char>, off: nat, n: nat) returns (r: int)
      requires off + n <= buf.Length && n > 0
      modifies this
      ensures script == Tail(old(script))
      ensures WroteTo(old(script), script, r <= 0 && errno != Interrupt)
      ensures -1 <= r <= n
      ensures r > 0 ==> r == Accepted(old(script), n)
      ensures r <= 0 <==> old(script) != [] && !old(script)[0].Accept?
      ensures r == -1 ==> (errno == Interrupt <==> old(script)[0].WriteInterrupted?) && !old(script)[0].AcceptNone?
      ensures r == 0 ==> old(script)[0].AcceptNone? && errno == old(errno)
      ensures written == if r <= 0 then old(written) else old(written) + buf[off..off + r]
    {
      var limit := n;
      if script != [] {
        var event := script[0];
        script := script[1..];
        match event {
          case AcceptNone =>
            return 0;
          case WriteInterrupted =>
            errno := Interrupt;
            return -1;
          case WriteFailed =>
            errno := OtherError;
            return -1;
          case Accept(max) =>
            limit := Min(AtLeastOne(max), n);
        }
      }
      written := written + buf[off..off + limit];
      r := limit;
    }
  }
}
