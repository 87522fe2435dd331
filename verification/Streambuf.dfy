// basic_socket_streambuf: the buffers, the pointer areas and the loops over the socket.
module Streambuf {
  import opened Subsequence
  import opened Kernel
  import opened WriterSpec
  import opened EndToEnd
  import opened Connect

  const INT_MAX: int := 0x7FFF_FFFF
  const MAX_TIME: int := 0x7FFF_FFFF_FFFF_FFFF
  const NOT_EOF := Char('\0')

  // The poll timeout for a remaining time in clock ticks: never negative, never past the expiry,
  // representable as int, and short of the expiry by less than a millisecond unless capped.
  function TimeoutMs(remaining: int): (ms: int)
    ensures 0 <= ms <= INT_MAX
    ensures remaining <= 0 ==> ms == 0
    ensures remaining > 0 ==> ms * TICKS_PER_MS <= remaining
    ensures ms < INT_MAX ==> remaining < (ms + 1) * TICKS_PER_MS
  {
    // C++ division truncates toward zero.
    var msec := if remaining >= 0 then remaining / TICKS_PER_MS else -(-remaining / TICKS_PER_MS);
    if msec > INT_MAX then INT_MAX else if msec < 0 then 0 else msec
  }

  // The waits after the first `count` each asked for the time remaining at their clock reading.
  ghost predicate Timely(waits: seq<Wait>, count: nat, expiry: int) {
    && count <= |waits|
    && forall i :: count <= i < |waits| ==> waits[i].timeout == TimeoutMs(expiry - waits[i].clock)
  }

  class SocketStreambuf {
    var sock: Socket
    var getBuffer: array<char>
    var putBuffer: array<char>
    // Offsets of the std::streambuf pointers; the put pointers of an unbuffered stream are null,
    // which is offset 0 of an empty buffer.
    var eback: nat
    var gptr: nat
    var egptr: nat
    var pbase: nat
    var pptr: nat
    var epptr: nat
    var ec: Error
    var expiry: int

    ghost function Repr(): set<object>
      reads this
    {
      {this, sock, getBuffer, putBuffer}
    }

    ghost predicate Valid()
      reads this
    {
      && getBuffer != putBuffer
      && getBuffer.Length == BUFFER_SIZE
      && (putBuffer.Length == 0 || putBuffer.Length == BUFFER_SIZE)
      && eback <= gptr <= egptr <= getBuffer.Length
      && pbase <= pptr <= epptr == putBuffer.Length
    }

    ghost function Out(): Writer
      requires Valid()
      reads this, putBuffer, sock
    {
      Writer(putBuffer.Length != 0, putBuffer[pbase..pptr], epptr - pptr, sock.sent)
    }

    ghost function In(): Reader
      requires Valid()
      reads this, getBuffer, sock
    {
      Reader(getBuffer[gptr..egptr], sock.delivered)
    }

    // Why a socket loop gave up, read off the last answer it got.
    ghost predicate GaveUp()
      reads this, sock
    {
      match sock.answer
      case ClockRead(time) => expiry < time && ec == TimedOut
      case Transferred(bytes, error) =>
        bytes <= 0 && error != WouldBlock && error != TryAgain && ec == error
      case Polled(ready, error) => ready < 0 && ec == error
      case NoAnswer => false
    }

    constructor (s: Socket)
      ensures Valid() && fresh(Repr() - {s}) && sock == s
      ensures Out() == FRESH_WRITER.(sent := s.sent) && In() == Reader([], s.delivered)
      ensures ec == Ok && expiry == MAX_TIME
    {
      sock := s;
      getBuffer, putBuffer := new char[BUFFER_SIZE], new char[BUFFER_SIZE];
      eback, gptr, egptr := 0, PUTBACK_MAX, PUTBACK_MAX;
      pbase, pptr, epptr := 0, 0, BUFFER_SIZE;
      ec, expiry := Ok, MAX_TIME;
    }

    method InitBuffers()
      requires Valid()
      modifies this`eback, this`gptr, this`egptr, this`pbase, this`pptr, this`epptr
      ensures Valid()
      ensures In() == old(In()).(avail := [])
      ensures Out() == old(Out()).(pending := [], room := putBuffer.Length)
    {
      eback, gptr, egptr := 0, PUTBACK_MAX, PUTBACK_MAX;
      if putBuffer.Length == 0 {
        pbase, pptr, epptr := 0, 0, 0;
      } else {
        pbase, pptr, epptr := 0, 0, putBuffer.Length;
      }
    }

    method Timeout() returns (ms: int)
      modifies sock`now, sock`answer
      ensures old(sock.now) <= sock.now && sock.answer == ClockRead(sock.now)
      ensures ms == TimeoutMs(expiry - LastTime(sock.answer))
    {
      var now := sock.Now();
      ms := TimeoutMs(expiry - now);
    }

    // poll_read and poll_write with the remaining time as the timeout.
    method AwaitReady() returns (ready: int)
      modifies this`ec, sock`now, sock`waits, sock`answer
      ensures ready >= 0 ==> old(sock.now) < sock.now
      ensures ready < 0 ==> GaveUp()
      ensures |sock.waits| == |old(sock.waits)| + 1 && old(sock.waits) <= sock.waits
      ensures Timely(sock.waits, |old(sock.waits)|, expiry)
    {
      var ms := Timeout();
      ready, ec := sock.Poll(ms);
    }

    // One round of the receive loop: give up, receive into the space after the putback reserve,
    // or wait for the socket and go again.
    method ReceiveRound() returns (bytes: nat, again: bool)
      requires Valid()
      modifies this`ec, sock, getBuffer
      ensures bytes <= BUFFER_SIZE - PUTBACK_MAX
      ensures sock.delivered == old(sock.delivered) + getBuffer[PUTBACK_MAX..PUTBACK_MAX + bytes]
      ensures sock.sent == old(sock.sent)
      ensures again ==> bytes == 0 && old(sock.now) <= expiry && old(sock.now) < sock.now
      ensures !again && bytes == 0 ==> GaveUp() || (sock.answer == Transferred(0, Ok) && ec == EndOfFile)
      ensures old(sock.waits) <= sock.waits && Timely(sock.waits, |old(sock.waits)|, expiry)
    {
      var now := sock.Now();
      if expiry < now {
        ec := TimedOut;
        return 0, false;
      }
      if !sock.nonBlocking {
        ec := sock.SetNonBlocking();
      }
      var count: int;
      count, ec := sock.Recv(getBuffer, PUTBACK_MAX);
      if count > 0 {
        return count, false;
      }
      if count == 0 {
        ec := EndOfFile;
        return 0, false;
      }
      if ec != WouldBlock && ec != TryAgain {
        return 0, false;
      }
      var ready := AwaitReady();
      return 0, ready >= 0;
    }

    // The receive loop of underflow: bytes placed after the putback reserve, or 0 on failure.
    method ReceiveSome() returns (bytes: nat)
      requires Valid()
      modifies this`ec, sock, getBuffer
      ensures bytes <= BUFFER_SIZE - PUTBACK_MAX
      ensures sock.delivered == old(sock.delivered) + getBuffer[PUTBACK_MAX..PUTBACK_MAX + bytes]
      ensures sock.sent == old(sock.sent)
      ensures bytes == 0 ==> GaveUp() || (sock.answer == Transferred(0, Ok) && ec == EndOfFile)
      ensures Timely(sock.waits, |old(sock.waits)|, expiry)
    {
      bytes := 0;
      var again := true;
      while again
        invariant bytes <= BUFFER_SIZE - PUTBACK_MAX && (again ==> bytes == 0)
        invariant sock.delivered == old(sock.delivered) + getBuffer[PUTBACK_MAX..PUTBACK_MAX + bytes]
        invariant sock.sent == old(sock.sent)
        invariant !again && bytes == 0 ==> GaveUp() || (sock.answer == Transferred(0, Ok) && ec == EndOfFile)
        invariant Timely(sock.waits, |old(sock.waits)|, expiry)
        decreases again, expiry - sock.now
      {
        bytes, again := ReceiveRound();
      }
    }

    method Underflow() returns (r: IntType)
      requires Valid()
      modifies this`eback, this`gptr, this`egptr, this`ec, sock, getBuffer
      ensures Valid()
      ensures UnderflowStep(old(In()), r, In())
      ensures sock.sent == old(sock.sent)
      ensures old(gptr) == old(egptr) && r == Eof ==>
              GaveUp() || (sock.answer == Transferred(0, Ok) && ec == EndOfFile)
      ensures Timely(sock.waits, |old(sock.waits)|, expiry)
    {
      if gptr != egptr {
        return Eof;
      }
      var bytes := ReceiveSome();
      if bytes == 0 {
        return Eof;
      }
      eback, gptr, egptr := 0, PUTBACK_MAX, PUTBACK_MAX + bytes;
      return Char(getBuffer[gptr]);
    }

    // One round of the send loop: give up, send a prefix, or wait for the socket and go again.
    method SendRound(rest: seq<char>) returns (bytes: nat, again: bool)
      requires rest != []
      modifies this`ec, sock
      ensures bytes <= |rest| && sock.sent == old(sock.sent) + rest[..bytes]
      ensures sock.delivered == old(sock.delivered)
      ensures bytes > 0 ==> again && ec == Ok
      ensures again && bytes == 0 ==> old(sock.now) <= expiry && old(sock.now) < sock.now
      ensures !again ==> GaveUp()
      ensures old(sock.waits) <= sock.waits && Timely(sock.waits, |old(sock.waits)|, expiry)
    {
      var now := sock.Now();
      if expiry < now {
        ec := TimedOut;
        return 0, false;
      }
      if !sock.nonBlocking {
        ec := sock.SetNonBlocking();
      }
      var count: int;
      count, ec := sock.Send(rest);
      if count > 0 {
        return count, true;
      }
      if ec != WouldBlock && ec != TryAgain {
        return 0, false;
      }
      var ready := AwaitReady();
      return 0, ready >= 0;
    }

    // The send loop of overflow: transmits `out` until done, a fatal error or the expiry.
    method SendAll(out: seq<char>) returns (ok: bool)
      modifies this`ec, sock
      ensures SendOutcome(out, old(sock.sent), sock.sent, ok)
      ensures sock.delivered == old(sock.delivered)
      ensures if ok then ec == (if out == [] then old(ec) else Ok) else GaveUp()
      ensures Timely(sock.waits, |old(sock.waits)|, expiry)
    {
      var rest := out;
      var again := true;
      while |rest| > 0 && again
        invariant old(sock.sent) + out == sock.sent + rest && |rest| <= |out|
        invariant sock.delivered == old(sock.delivered)
        invariant rest == [] ==> again && ec == if out == [] then old(ec) else Ok
        invariant !again ==> GaveUp()
        invariant Timely(sock.waits, |old(sock.waits)|, expiry)
        decreases |rest|, again, expiry - sock.now
      {
        var bytes;
        bytes, again := SendRound(rest);
        assert rest == rest[..bytes] + rest[bytes..];
        rest := rest[bytes..];
      }
      SendProgress(out, old(sock.sent), sock.sent, rest);
      ok := rest == [];
    }

    method Overflow(c: IntType) returns (r: IntType)
      requires Valid()
      modifies this`pbase, this`pptr, this`epptr, this`ec, sock, putBuffer
      ensures Valid()
      ensures OverflowStep(old(Out()), c, Out(), r != Eof)
      ensures r != Eof && c.Char? ==> r == c
      ensures sock.delivered == old(sock.delivered)
      ensures r == Eof ==> GaveUp()
      ensures r != Eof ==> ec == if sock.sent == old(sock.sent) then old(ec) else Ok
      ensures Timely(sock.waits, |old(sock.waits)|, expiry)
    {
      var out: seq<char>;
      if putBuffer.Length == 0 {
        if c == Eof {
          return NOT_EOF;
        }
        out := [c.c];
      } else {
        out := putBuffer[pbase..pptr];
      }
      var ok := SendAll(out);
      if !ok {
        return Eof;
      }
      if putBuffer.Length != 0 {
        pbase, pptr, epptr := 0, 0, putBuffer.Length;
        if c == Eof {
          return NOT_EOF;
        }
        putBuffer[pptr] := c.c;
        pptr := pptr + 1;
      }
      return c;
    }

    method Sync() returns (ok: bool)
      requires Valid()
      modifies this`pbase, this`pptr, this`epptr, this`ec, sock, putBuffer
      ensures Valid()
      ensures Step(old(Out()), Event(Op.Sync, ok), Out())
      ensures sock.delivered == old(sock.delivered)
      ensures !ok ==> GaveUp()
      ensures ok && sock.sent == old(sock.sent) ==> ec == old(ec)
      ensures Timely(sock.waits, |old(sock.waits)|, expiry)
    {
      var r := Overflow(Eof);
      ok := r != Eof;
    }

    method SetBuffer(isNull: bool, n: int) returns (ok: bool)
      requires Valid()
      modifies this`putBuffer, this`pbase, this`pptr, this`epptr, this`ec, sock
      ensures Valid() && (putBuffer == old(putBuffer) || fresh(putBuffer))
      ensures Step(old(Out()), Event(Setbuf(isNull, n), ok), Out())
      ensures sock.delivered == old(sock.delivered) && ec == old(ec)
    {
      if pptr == pbase && isNull && n == 0 {
        putBuffer := new char[0];
        pbase, pptr, epptr := 0, 0, 0;
        assert Out() == old(Out()).(buffered := false, room := 0);
        var _ := Sync();
        assert sock.sent == old(sock.sent);
        return true;
      }
      return false;
    }

    // std::streambuf::sputc.
    method Sputc(c: char) returns (ok: bool)
      requires Valid()
      modifies this`pbase, this`pptr, this`epptr, this`ec, sock, putBuffer
      ensures Valid()
      ensures Step(old(Out()), Event(Op.Sputc(c), ok), Out())
      ensures sock.delivered == old(sock.delivered)
      ensures !ok ==> GaveUp()
      ensures ok && sock.sent == old(sock.sent) ==> ec == old(ec)
      ensures Timely(sock.waits, |old(sock.waits)|, expiry)
    {
      if pptr < epptr {
        putBuffer[pptr] := c;
        pptr := pptr + 1;
        return true;
      }
      var r := Overflow(Char(c));
      ok := r != Eof;
    }

    // std::streambuf::sgetc.
    method Sgetc() returns (r: IntType)
      requires Valid()
      modifies this`eback, this`gptr, this`egptr, this`ec, sock, getBuffer
      ensures Valid()
      ensures ReadStep(old(In()), ReadEvent(ReadOp.Sgetc, r), In())
      ensures sock.sent == old(sock.sent)
      ensures Timely(sock.waits, |old(sock.waits)|, expiry)
    {
      if gptr < egptr {
        return Char(getBuffer[gptr]);
      }
      r := Underflow();
    }

    // std::streambuf::sbumpc, with uflow inlined.
    method Sbumpc() returns (r: IntType)
      requires Valid()
      modifies this`eback, this`gptr, this`egptr, this`ec, sock, getBuffer
      ensures Valid()
      ensures ReadStep(old(In()), ReadEvent(ReadOp.Sbumpc, r), In())
      ensures sock.sent == old(sock.sent)
      ensures Timely(sock.waits, |old(sock.waits)|, expiry)
    {
      if gptr == egptr {
        r := Underflow();
        if r == Eof {
          return;
        }
      }
      r := Char(getBuffer[gptr]);
      gptr := gptr + 1;
    }

    method Close() returns (closed: bool, ghost flushed: bool)
      requires Valid()
      modifies this`eback, this`gptr, this`egptr, this`pbase, this`pptr, this`epptr, this`ec, sock, putBuffer
      ensures Valid()
      ensures CloseStep(old(Out()), flushed, closed, Out())
      ensures closed <==> ec == Ok
      ensures In() == if closed then old(In()).(avail := []) else old(In())
    {
      var ok := Sync();
      flushed := ok;
      assert CloseStep(old(Out()), flushed, false, Out());
      ec := sock.Close();
      closed := ec == Ok;
      if closed {
        InitBuffers();
      }
    }

    // The destructor's flush.
    method Destroy()
      requires Valid()
      modifies this`pbase, this`pptr, this`epptr, this`ec, sock, putBuffer
      ensures Valid()
      ensures if old(pptr) != old(pbase)
              then exists ok :: Step(old(Out()), Event(Op.Sync, ok), Out())
              else Out() == old(Out())
    {
      if pptr != pbase {
        var ok := Sync();
      }
    }

    // What both moves leave behind in the source.
    method ResetAfterMove()
      requires getBuffer.Length == BUFFER_SIZE && getBuffer != putBuffer
      requires putBuffer.Length == 0 || putBuffer.Length == BUFFER_SIZE
      modifies this
      ensures Valid() && sock == old(sock) && getBuffer == old(getBuffer)
      ensures putBuffer == old(putBuffer) || fresh(putBuffer)
      ensures Out() == FRESH_WRITER.(sent := sock.sent) && In() == Reader([], sock.delivered)
      ensures ec == Ok && expiry == MAX_TIME
    {
      ec, expiry := Ok, MAX_TIME;
      if putBuffer.Length != BUFFER_SIZE {
        putBuffer := new char[BUFFER_SIZE];
      }
      eback, gptr, egptr := 0, PUTBACK_MAX, PUTBACK_MAX;
      pbase, pptr, epptr := 0, 0, putBuffer.Length;
    }

    // setg and setp on another stream's buffers: the put area starts at its pptr.
    method Adopt(other: SocketStreambuf)
      requires other.Valid() && this != other
      modifies this
      ensures Valid() && other.Valid()
      ensures sock == other.sock && getBuffer == other.getBuffer && putBuffer == other.putBuffer
      ensures Out() == MovedFrom(other.Out()) && In() == other.In()
      ensures ec == other.ec && expiry == other.expiry
    {
      sock, getBuffer, putBuffer := other.sock, other.getBuffer, other.putBuffer;
      ec, expiry := other.ec, other.expiry;
      eback, gptr, egptr := other.eback, other.gptr, other.egptr;
      pbase, pptr, epptr := other.pptr, other.pptr, other.epptr;
    }

    // The trade of sockets and buffers in move assignment.
    method TakeFrom(other: SocketStreambuf)
      requires Valid() && other.Valid() && Repr() !! other.Repr()
      modifies this, other
      ensures Valid() && other.Valid() && Repr() !! other.Repr()
      ensures sock == old(other.sock) && getBuffer == old(other.getBuffer) && putBuffer == old(other.putBuffer)
      ensures Out() == MovedFrom(old(other.Out())) && In() == old(other.In())
      ensures ec == old(other.ec) && expiry == old(other.expiry)
      ensures other.Out() == FRESH_WRITER && other.In() == Reader([], [])
      ensures other.ec == Ok && other.expiry == MAX_TIME
      ensures fresh(other.sock) && other.getBuffer == old(getBuffer)
      ensures other.putBuffer == old(putBuffer) || fresh(other.putBuffer)
    {
      var oldGet, oldPut := getBuffer, putBuffer;
      Adopt(other);
      other.getBuffer, other.putBuffer := oldGet, oldPut;
      other.sock := new Socket();
      other.ResetAfterMove();
    }

    // Move construction: start with fresh buffers and trade them.
    constructor MoveFrom(other: SocketStreambuf)
      requires other.Valid()
      modifies other
      ensures Valid() && other.Valid() && Repr() !! other.Repr()
      ensures sock == old(other.sock) && getBuffer == old(other.getBuffer) && putBuffer == old(other.putBuffer)
      ensures Out() == MovedFrom(old(other.Out())) && In() == old(other.In())
      ensures ec == old(other.ec) && expiry == old(other.expiry)
      ensures other.Out() == FRESH_WRITER && other.In() == Reader([], [])
      ensures other.ec == Ok && other.expiry == MAX_TIME
      ensures fresh(other.Repr() - {other})
    {
      var s := new Socket();
      sock := s;
      getBuffer, putBuffer := new char[BUFFER_SIZE], new char[BUFFER_SIZE];
      eback, gptr, egptr := 0, PUTBACK_MAX, PUTBACK_MAX;
      pbase, pptr, epptr := 0, 0, BUFFER_SIZE;
      ec, expiry := Ok, MAX_TIME;
      new;
      TakeFrom(other);
    }

    // Move assignment from a different stream: close this one first, so its put area is flushed
    // to its old socket as far as that goes.
    method MoveAssign(other: SocketStreambuf) returns (ghost flushed: bool)
      requires Valid() && other.Valid() && Repr() !! other.Repr()
      modifies this, other, sock, putBuffer
      ensures Valid() && other.Valid() && Repr() !! other.Repr()
      ensures sock == old(other.sock) && getBuffer == old(other.getBuffer) && putBuffer == old(other.putBuffer)
      ensures Out() == MovedFrom(old(other.Out())) && In() == old(other.In())
      ensures ec == old(other.ec) && expiry == old(other.expiry)
      ensures other.Out() == FRESH_WRITER && other.In() == Reader([], [])
      ensures other.ec == Ok && other.expiry == MAX_TIME
      ensures fresh(other.sock) && other.getBuffer == old(getBuffer)
      ensures other.putBuffer == old(putBuffer) || fresh(other.putBuffer)
      ensures SendOutcome(old(Out()).pending, old(sock.sent), old(sock).sent, flushed)
    {
      var closed;
      closed, flushed := Close();
      TakeFrom(other);
    }

    // Move assignment from itself: the socket stays, and so does nothing else.
    method MoveAssignSelf() returns (ghost flushed: bool)
      requires Valid()
      modifies this, sock, putBuffer
      ensures Valid() && sock == old(sock)
      ensures Out() == FRESH_WRITER.(sent := sock.sent) && In() == Reader([], sock.delivered)
      ensures ec == Ok && expiry == MAX_TIME
      ensures SendOutcome(old(Out()).pending, old(sock.sent), sock.sent, flushed)
    {
      var closed;
      closed, flushed := Close();
      ResetAfterMove();
    }

    // A caller's sequence of writes, whatever their results.
    method Write(ops: seq<Op>) returns (ghost ws: seq<Writer>, ghost es: seq<Event>)
      requires Valid()
      modifies this, sock, putBuffer
      ensures Valid() && sock == old(sock) && (putBuffer == old(putBuffer) || fresh(putBuffer))
      ensures |es| == |ops| && forall i :: 0 <= i < |es| ==> es[i].op == ops[i]
      ensures Run(ws, es) && ws[0] == old(Out()) && ws[|es|] == Out()
      // No accepted character is lost, and if no flush failed with two or more pending, none is repeated.
      ensures Subseq(old(Out()).sent + old(Out()).pending + Accepted(es), Out().sent + Out().pending)
      ensures AllHarmless(ws, es) ==> Out().sent + Out().pending == old(Out()).sent + old(Out()).pending + Accepted(es)
    {
      hide Step, Accepted, Subseq;
      ws, es := [Out()], [];
      for i := 0 to |ops|
        invariant Valid() && sock == old(sock) && (putBuffer == old(putBuffer) || fresh(putBuffer))
        invariant |es| == i && forall k :: 0 <= k < i ==> es[k].op == ops[k]
        invariant Run(ws, es) && ws[0] == old(Out()) && ws[i] == Out()
      {
        var ok;
        match ops[i] {
          case Sputc(c) => ok := Sputc(c);
          case Sync => ok := Sync();
          case Setbuf(isNull, n) => ok := SetBuffer(isNull, n);
        }
        ws, es := ws + [Out()], es + [Event(ops[i], ok)];
      }
      NoAcceptedCharacterLost(ws, es);
      if AllHarmless(ws, es) {
        ExactQueue(ws, es);
      }
    }

    // A caller's sequence of reads, whatever their results.
    method Read(ops: seq<ReadOp>) returns (results: seq<IntType>, ghost rs: seq<Reader>, ghost es: seq<ReadEvent>)
      requires Valid()
      modifies this`eback, this`gptr, this`egptr, this`ec, sock, getBuffer
      ensures Valid() && |results| == |ops|
      ensures |es| == |ops| && forall i :: 0 <= i < |es| ==> es[i] == ReadEvent(ops[i], results[i])
      ensures ReadRun(rs, es) && rs[0] == old(In()) && rs[|es|] == In()
      // What was available or received is what was consumed and what is still available.
      ensures old(sock.delivered) <= sock.delivered
      ensures old(In()).avail + sock.delivered[|old(sock.delivered)|..] == AllConsumed(es) + In().avail
    {
      hide ReadStep, AllConsumed;
      results, rs, es := [], [In()], [];
      for i := 0 to |ops|
        invariant Valid() && |results| == i && |es| == i
        invariant forall k :: 0 <= k < i ==> es[k] == ReadEvent(ops[k], results[k])
        invariant ReadRun(rs, es) && rs[0] == old(In()) && rs[i] == In()
      {
        var r;
        match ops[i] {
          case Sgetc => r := Sgetc();
          case Sbumpc => r := Sbumpc();
        }
        results, rs, es := results + [r], rs + [In()], es + [ReadEvent(ops[i], r)];
      }
      ReadRunConserves(rs, es);
    }

    // Whether more time remains than a poll timeout can express.
    predicate Capped(now: int)
      reads this
    {
      expiry - now >= INT_MAX * TICKS_PER_MS
    }

    // poll_connect with the remaining time as the timeout.
    method AwaitConnection() returns (ready: int)
      requires sock.attempts != []
      modifies this`ec, sock`now, sock`waits, sock`answer, sock`attempts
      ensures ready < 0 <==> ec != Ok
      ensures sock.attempts ==
              Amended(old(sock.attempts), Last(old(sock.attempts)).(ready := ready, poll := ec))
      // A wait runs out in the last millisecond before the expiry or later, unless its timeout was capped.
      ensures old(sock.now) <= sock.now
      ensures ready == 0 && !Capped(old(sock.now)) ==> expiry < sock.now + TICKS_PER_MS
      ensures old(sock.waits) <= sock.waits && Timely(sock.waits, |old(sock.waits)|, expiry)
    {
      var ms := Timeout();
      ready, ec := sock.PollConnect(ms);
    }

    // A connection being made: wait for it, and ask how it went.
    method Settle() returns (again: bool)
      requires sock.attempts != [] && InFlight(Last(sock.attempts)) && Consistent(Last(sock.attempts))
      modifies this`ec, sock`now, sock`waits, sock`answer, sock`attempts
      ensures sock.attempts != [] && sock.attempts == Amended(old(sock.attempts), Last(sock.attempts))
      ensures var a, b := Last(sock.attempts), Last(old(sock.attempts));
              && Consistent(a) && a.endpoint == b.endpoint && a.clock == b.clock
              && Judge(a) == (if again then Retry(ec) else Stop(ec))
              && (WaitRanOut(a) && !Capped(old(sock.now)) ==> expiry < sock.now + TICKS_PER_MS)
      ensures old(sock.now) <= sock.now
      ensures old(sock.waits) <= sock.waits && Timely(sock.waits, |old(sock.waits)|, expiry)
    {
      hide TimeoutMs;
      var ready := AwaitConnection();
      if ready < 0 {
        return true;
      }
      var read, pending;
      read, ec, pending := sock.SocketError();
      if !read {
        return false;
      }
      ec := pending;
      return ec != Ok;
    }

    // One endpoint: close and reopen the socket, connect, wait if need be and ask how it went.
    // Says whether the loop goes on; the error code is that of the verdict on the attempt.
    method TryEndpoint(endpoint: Endpoint) returns (again: bool)
      requires sock.answer.ClockRead? && sock.answer.time <= expiry
      modifies this`ec, sock
      ensures |sock.attempts| == |old(sock.attempts)| + 1 && old(sock.attempts) <= sock.attempts
      ensures var a := Last(sock.attempts);
              && Consistent(a) && a.endpoint == endpoint && a.clock == LastTime(old(sock.answer))
              && Judge(a) == (if again then Retry(ec) else Stop(ec))
              && (WaitRanOut(a) && !Capped(old(sock.now)) ==> expiry < sock.now + TICKS_PER_MS)
      ensures old(sock.now) <= sock.now
      ensures sock.sent == old(sock.sent) && sock.delivered == old(sock.delivered)
      ensures old(sock.waits) <= sock.waits && Timely(sock.waits, |old(sock.waits)|, expiry)
    {
      hide TimeoutMs;
      ec := sock.Close();
      ec := sock.Open(endpoint);
      if ec != Ok {
        return true;
      }
      if !sock.nonBlocking {
        ec := sock.SetNonBlocking();
      }
      ec := sock.Connect();
      if ec == Ok {
        return false;
      }
      if ec != InProgress && ec != WouldBlock {
        return true;
      }
      again := Settle();
    }

    method ConnectToEndpoints(endpoints: seq<Endpoint>) returns (ghost expired: bool)
      modifies this`ec, sock
      ensures old(sock.attempts) <= sock.attempts
      ensures old(ec) != Ok ==> ec == old(ec) && sock.attempts == old(sock.attempts)
      ensures old(ec) == Ok ==> Outcome(endpoints, sock.attempts[|old(sock.attempts)|..], expiry, expired, ec)
      ensures old(ec) == Ok && expired ==> sock.answer.ClockRead? && expiry < sock.answer.time
      // A clear error with a millisecond to spare is a real connection.
      ensures old(ec) == Ok && ec == Ok && !Capped(old(sock.now)) && sock.now + TICKS_PER_MS <= expiry ==>
                Established(Last(sock.attempts))
      ensures old(sock.now) <= sock.now
      ensures sock.sent == old(sock.sent) && sock.delivered == old(sock.delivered)
      ensures old(sock.waits) <= sock.waits && Timely(sock.waits, |old(sock.waits)|, expiry)
    {
      hide Consistent, Judge, WaitRanOut, Established;
      expired := false;
      if ec != Ok {
        return;
      }
      ec := NotFound;
      ghost var first := |sock.attempts|;
      for i := 0 to |endpoints|
        invariant old(sock.attempts) <= sock.attempts && |sock.attempts| == first + i
        invariant InOrder(endpoints, sock.attempts[first..], expiry)
        invariant AllFailed(sock.attempts[first..]) && ec == LeftOver(sock.attempts[first..])
        invariant sock.sent == old(sock.sent) && sock.delivered == old(sock.delivered)
        invariant old(sock.now) <= sock.now
        invariant old(sock.waits) <= sock.waits && Timely(sock.waits, |old(sock.waits)|, expiry)
      {
        var now := sock.Now();
        if expiry < now {
          ec, expired := TimedOut, true;
          return;
        }
        ghost var tried := sock.attempts[first..];
        var again := TryEndpoint(endpoints[i]);
        assert sock.attempts[first..] == tried + [Last(sock.attempts)];
        assert sock.attempts[first..][..i] == tried;
        if !again {
          OkMeansRealUnlessRanOut(Last(sock.attempts));
          return;
        }
      }
      if endpoints != [] {
        OkMeansRealUnlessRanOut(Last(sock.attempts[first..]));
      }
    }

    // connect to one endpoint: drop buffered data, forget the last error, try.
    method ConnectTo(endpoint: Endpoint) returns (connected: bool, ghost expired: bool)
      requires Valid()
      modifies this`eback, this`gptr, this`egptr, this`pbase, this`pptr, this`epptr, this`ec, sock
      ensures Valid()
      ensures Out() == old(Out()).(pending := [], room := putBuffer.Length)
      ensures In() == old(In()).(avail := [])
      ensures old(sock.attempts) <= sock.attempts
      ensures Outcome([endpoint], sock.attempts[|old(sock.attempts)|..], expiry, expired, ec)
      ensures connected <==> ec == Ok
      ensures connected && !Capped(old(sock.now)) && sock.now + TICKS_PER_MS <= expiry ==>
                Established(Last(sock.attempts))
      ensures connected <==> |sock.attempts| == |old(sock.attempts)| + 1 && Judge(Last(sock.attempts)) == Stop(Ok)
    {
      InitBuffers();
      ec := Ok;
      expired := ConnectToEndpoints([endpoint]);
      connected := ec == Ok;
      ClearIffFirstSuccess([endpoint], sock.attempts[|old(sock.attempts)|..], expiry, expired, ec);
    }
  }
}
