// The operating system as basic_socket_streambuf sees it: one non-blocking socket and one clock.
// Every body is nondeterministic, so a property proved against these contracts holds for every
// behaviour they admit: any fragmentation, any error, any readiness, any passage of time.
module Kernel {

  datatype Error =
    | Ok | TimedOut | WouldBlock | TryAgain | EndOfFile | NotFound | InProgress | Other(code: nat)

  const TICKS_PER_MS: int := 1_000_000

  // The system call (or clock reading) that answered last, and its answer.
  datatype Answer =
    | NoAnswer
    | ClockRead(time: int)
    | Transferred(bytes: int, error: Error)
    | Polled(ready: int, error: Error)

  // A blocking wait: the timeout asked for and the last clock reading before it.
  datatype Wait = Wait(timeout: int, clock: int)

  datatype Endpoint = Endpoint(address: nat, port: nat)

  // Everything the system answered while one endpoint was tried: the clock before it, the results
  // of open, connect and poll, whether SO_ERROR could be read, and the SO_ERROR value itself.
  datatype Attempt = Attempt(
    endpoint: Endpoint, clock: int, open: Error, connect: Error, ready: int, poll: Error,
    optionRead: bool, option: Error, pending: Error)

  function LastTime(a: Answer): int {
    if a.ClockRead? then a.time else 0
  }

  function Last(attempts: seq<Attempt>): Attempt
    requires attempts != []
  {
    attempts[|attempts| - 1]
  }

  // What became known about the attempt under way.
  function Amended(attempts: seq<Attempt>, a: Attempt): seq<Attempt>
    requires attempts != []
  {
    attempts[..|attempts| - 1] + [a]
  }

  class Socket {
    var nonBlocking: bool
    var now: int
    ghost var sent: seq<char>       // every byte taken from this stream
    ghost var delivered: seq<char>  // every byte handed to this stream
    ghost var waits: seq<Wait>
    ghost var answer: Answer
    ghost var attempts: seq<Attempt>

    constructor ()
      ensures sent == [] && delivered == [] && waits == [] && attempts == []
    {
      nonBlocking, now := false, *;
      sent, delivered, waits, answer, attempts := [], [], [], NoAnswer, [];
    }

    method Now() returns (time: int)
      modifies this`now, this`answer
      ensures old(now) <= now == time && answer == ClockRead(time)
    {
      var elapsed :| elapsed >= 0;
      now := now + elapsed;
      time, answer := now, ClockRead(now);
    }

    method SetNonBlocking() returns (error: Error)
      modifies this`nonBlocking
    {
      nonBlocking, error := *, *;
    }

    // send(2): a positive count means that prefix was taken; a negative one comes with an error.
    method Send(data: seq<char>) returns (bytes: int, error: Error)
      requires data != []
      modifies this`sent, this`answer
      ensures bytes <= |data| && (bytes < 0 <==> error != Ok)
      ensures sent == old(sent) + data[..if bytes > 0 then bytes else 0]
      ensures answer == Transferred(bytes, error)
    {
      bytes, error := AnyResult(|data|);
      sent := sent + data[..if bytes > 0 then bytes else 0];
      answer := Transferred(bytes, error);
    }

    // recv(2) into buffer[offset..]: at most what fits, written in place.
    method Recv(buffer: array<char>, offset: nat) returns (bytes: int, error: Error)
      requires offset < buffer.Length
      modifies this`delivered, this`answer, buffer
      ensures bytes <= buffer.Length - offset && (bytes < 0 <==> error != Ok)
      ensures buffer[..offset] == old(buffer[..offset])
      ensures delivered == old(delivered) + buffer[offset..offset + if bytes > 0 then bytes else 0]
      ensures answer == Transferred(bytes, error)
    {
      bytes, error := AnyResult(buffer.Length - offset);
      var fill := new char[buffer.Length];
      if bytes > 0 {
        forall i | 0 <= i < bytes {
          buffer[offset + i] := fill[i];
        }
        delivered := delivered + buffer[offset..offset + bytes];
      }
      answer := Transferred(bytes, error);
    }

    // poll(2): negative with an error, otherwise zero (timed out) or ready. A wait takes time.
    method Poll(timeout: int) returns (ready: int, error: Error)
      modifies this`now, this`waits, this`answer
      ensures ready < 0 <==> error != Ok
      ensures ready >= 0 ==> old(now) < now
      ensures ready < 0 ==> old(now) <= now
      ensures waits == old(waits) + [Wait(timeout, LastTime(old(answer)))]
      ensures answer == Polled(ready, error)
    {
      var elapsed :| elapsed >= 0;
      waits := waits + [Wait(timeout, LastTime(answer))];
      now := now + elapsed + 1;
      ready, error := AnyResult(1);
      answer := Polled(ready, error);
    }

    method Close() returns (error: Error)
    {
      error := *;
    }

    // A new descriptor for one endpoint: the next attempt begins.
    method Open(ghost endpoint: Endpoint) returns (error: Error)
      modifies this`nonBlocking, this`attempts
      ensures attempts == old(attempts) + [Attempt(endpoint, LastTime(answer), error, Ok, 0, Ok, true, Ok, Ok)]
    {
      nonBlocking, error := *, *;
      attempts := attempts + [Attempt(endpoint, LastTime(answer), error, Ok, 0, Ok, true, Ok, Ok)];
    }

    method Connect() returns (error: Error)
      requires attempts != []
      modifies this`attempts
      ensures attempts == Amended(old(attempts), Last(old(attempts)).(connect := error))
    {
      error := *;
      attempts := Amended(attempts, Last(attempts).(connect := error));
    }

    // poll(2) for a connection being made. It does not time out before the timeout.
    method PollConnect(timeout: int) returns (ready: int, error: Error)
      requires attempts != []
      modifies this`now, this`waits, this`answer, this`attempts
      ensures ready < 0 <==> error != Ok
      ensures old(now) <= now
      ensures ready == 0 ==> old(now) + timeout * TICKS_PER_MS <= now
      ensures waits == old(waits) + [Wait(timeout, LastTime(old(answer)))]
      ensures attempts == Amended(old(attempts), Last(old(attempts)).(ready := ready, poll := error))
    {
      var start := now;
      ready, error := Poll(timeout);
      if ready == 0 {
        var late :| late >= 0 && now + late >= start + timeout * TICKS_PER_MS;
        now := now + late;
      }
      attempts := Amended(attempts, Last(attempts).(ready := ready, poll := error));
    }

    // getsockopt(2) for SO_ERROR.
    method SocketError() returns (read: bool, error: Error, pending: Error)
      requires attempts != []
      modifies this`attempts
      ensures !read ==> error != Ok
      ensures attempts ==
              Amended(old(attempts), Last(old(attempts)).(optionRead := read, option := error, pending := pending))
    {
      read, error, pending := *, *, *;
      if !read {
        error :| error != Ok;
      }
      attempts := Amended(attempts, Last(attempts).(optionRead := read, option := error, pending := pending));
    }

    static method AnyResult(limit: nat) returns (result: int, error: Error)
      ensures result <= limit && (result < 0 <==> error != Ok)
    {
      result := *;
      if result > limit { result := limit; }
      error := Ok;
      if result < 0 {
        error :| error != Ok;
      }
    }
  }
}
