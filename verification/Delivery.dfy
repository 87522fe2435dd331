// Sending: the limit on packet bodies, the envelopes around a task stream, and which commits arrive.
module Delivery {
  import opened Options
  import opened LittleEndian
  import opened TaskStream
  import opened TaskStreamLaws

  const MAX_BODY: nat := 8192
  const Z2C_TASK_RESULT: nat := 1007
  const Z2W_RELAY: nat := 7002
  const Z2W_UNIT_OF_WORK_STREAM: nat := 7004

  // What surrounds the tasks on the way to the client (envelope, result header, owner, count) and to
  // the world server (player, request, owner, count).
  const CLIENT_OVERHEAD: nat := 34
  const WORLD_OVERHEAD: nat := 26

  datatype Packet = Packet(id: nat, body: seq<Byte>)

  // What arrives of a packet handed to a session: a body over the limit is dropped.
  function Kept(p: Packet): seq<Packet> {
    if |p.body| > MAX_BODY then [] else [p]
  }

  class Session {
    var closed: bool
    var queue: seq<Packet>

    constructor ()
      ensures !closed && queue == []
    {
      closed, queue := false, [];
    }

    // BuildFrame throws on a body over the limit; the session logs that and goes on.
    method SendPacket(id: nat, body: seq<Byte>)
      modifies this`queue
      ensures queue == old(queue) + if closed then [] else Kept(Packet(id, body))
    {
      if closed {
        return;
      }
      var frame := BuildFrame(id, body);
      if frame.Some? {
        queue := queue + [frame.value];
      }
    }
  }

  // None is the exception.
  function BuildFrame(id: nat, body: seq<Byte>): (frame: Option<Packet>)
    ensures frame.Some? <==> |body| <= MAX_BODY
  {
    if |body| > MAX_BODY then None else Some(Packet(id, body))
  }

  // ---- Envelopes. ----

  // Which client, which packet, and the packet itself.
  function Relay(client: nat, innerId: nat, inner: seq<Byte>): seq<Byte> {
    Encode(client, Bytes(W8)) + (Encode(innerId, Bytes(W2)) + inner)
  }

  datatype Envelope = Envelope(client: nat, innerId: nat, inner: seq<Byte>)

  function Unwrapped(body: seq<Byte>): Option<Envelope> {
    var client := ReadInt(body, W8);
    if client.None? then None else
    var innerId := ReadInt(client.value.rest, W2);
    if innerId.None? then None else
    Some(Envelope(client.value.value, innerId.value.value, innerId.value.rest))
  }

  // A commit for the client and for the world server. Both carry the same stream.
  function ToClient(client: nat, request: nat, requestId: int, owner: nat, tasks: seq<Task>): Packet
    requires Int64(requestId) && forall i :: 0 <= i < |tasks| ==> TaskInRange(tasks[i])
  {
    Packet(Z2W_RELAY,
           Relay(client, Z2C_TASK_RESULT,
                 WriteSuccess(request, requestId, owner, |tasks|, WriteFrames(FramesOf(tasks)))))
  }

  function ToWorld(unit: int, requestId: int, owner: nat, tasks: seq<Task>): Packet
    requires Int64(unit) && Int64(requestId) && forall i :: 0 <= i < |tasks| ==> TaskInRange(tasks[i])
  {
    Packet(Z2W_UNIT_OF_WORK_STREAM,
           Write64(unit) + (Write64(requestId) + (Encode(owner, Bytes(W8)) +
           (Encode(|tasks| % 0x1_0000, Bytes(W2)) + WriteFrames(FramesOf(tasks))))))
  }

  // ---- Sizes. ----

  // One framed task.
  function TaskBytes(t: Task): nat {
    if t.UpdateCurrency? then 23 else 34 + |SentMail(t).title| + |SentMail(t).body|
  }

  function StreamBytes(tasks: seq<Task>): nat {
    if tasks == [] then 0 else TaskBytes(tasks[0]) + StreamBytes(tasks[1..])
  }

  predicate Fits(overhead: nat, tasks: seq<Task>) {
    overhead + StreamBytes(tasks) <= MAX_BODY
  }

  lemma FrameLength(t: Task)
    requires TaskInRange(t)
    ensures |WriteFrame(FrameOf(t))| == TaskBytes(t)
  {
    hide ToUnsigned;
  }

  lemma {:induction false} StreamLength(tasks: seq<Task>)
    requires forall i :: 0 <= i < |tasks| ==> TaskInRange(tasks[i])
    ensures |WriteFrames(FramesOf(tasks))| == StreamBytes(tasks)
  {
    hide WriteFrame, FrameOf, TaskBytes;
    if tasks != [] {
      FrameLength(tasks[0]);
      StreamLength(tasks[1..]);
      assert FramesOf(tasks)[1..] == FramesOf(tasks[1..]);
    }
  }

  // A packet arrives if and only if its tasks fit next to what surrounds them.
  lemma ArrivesIffFits(client: nat, unit: int, request: nat, requestId: int, owner: nat, tasks: seq<Task>)
    requires Int64(unit) && Int64(requestId) && forall i :: 0 <= i < |tasks| ==> TaskInRange(tasks[i])
    ensures |ToClient(client, request, requestId, owner, tasks).body| == CLIENT_OVERHEAD + StreamBytes(tasks)
    ensures |ToWorld(unit, requestId, owner, tasks).body| == WORLD_OVERHEAD + StreamBytes(tasks)
    ensures Kept(ToClient(client, request, requestId, owner, tasks)) != [] <==> Fits(CLIENT_OVERHEAD, tasks)
    ensures Kept(ToWorld(unit, requestId, owner, tasks)) != [] <==> Fits(WORLD_OVERHEAD, tasks)
  {
    hide WriteFrames, FramesOf, StreamBytes, ToUnsigned;
    StreamLength(tasks);
  }

  lemma {:induction false} StreamBytesConcat(a: seq<Task>, b: seq<Task>)
    ensures StreamBytes(a + b) == StreamBytes(a) + StreamBytes(b)
    decreases |a|
  {
    hide TaskBytes;
    if a == [] {
      assert a + b == b;
    } else {
      StreamBytesConcat(a[1..], b);
      assert (a + b)[1..] == a[1..] + b;
    }
  }

  // A stream that fits is short, and so are its texts.
  lemma {:induction false} FittingIsShort(tasks: seq<Task>)
    ensures 23 * |tasks| <= StreamBytes(tasks)
    ensures forall i :: 0 <= i < |tasks| ==> TaskBytes(tasks[i]) <= StreamBytes(tasks)
  {
    if tasks != [] {
      FittingIsShort(tasks[1..]);
      assert forall i :: 1 <= i < |tasks| ==> tasks[i] == tasks[1..][i - 1];
    }
  }

  // ---- What the client prints. ----

  // A packet that was handed to the session, seen by a client: it is routed by the envelope, and
  // results are printed.
  function ClientPrints(client: nat, p: Packet): seq<Line> {
    var result := ResultFor(client, p);
    if result.None? then [] else Print(result.value)
  }

  // The task result for a client in what was handed to the session, if it arrives and is one.
  function ResultFor(client: nat, p: Packet): Option<seq<Byte>> {
    if Kept(p) == [] || p.id != Z2W_RELAY then None else
    var e := Unwrapped(p.body);
    if e.None? || e.value.client != client || e.value.innerId != Z2C_TASK_RESULT then None
    else Some(e.value.inner)
  }

  lemma RelayUnwraps(client: nat, innerId: nat, inner: seq<Byte>)
    requires client < 2 * TWO_63 && innerId < 0x1_0000
    ensures Unwrapped(Relay(client, innerId, inner)) == Some(Envelope(client, innerId, inner))
  {
    hide ReadInt, Encode;
    WidthLimits();
    ReadEncoded(client, W8, Encode(innerId, Bytes(W2)) + inner);
    ReadEncoded(innerId, W2, inner);
  }

  // Every change of a commit reaches the client and prints, in order, under a header that says how
  // many there are, if and only if the packet is within the limit: then no count and no length in it
  // was cut, and otherwise nothing arrives.
  lemma CommitRoundTrip(client: nat, request: nat, requestId: int, owner: nat, tasks: seq<Task>)
    requires client < 2 * TWO_63 && request < 0x1_0000 && Int64(requestId) && owner < 2 * TWO_63
    requires forall i :: 0 <= i < |tasks| ==> TaskInRange(tasks[i])
    ensures ClientPrints(client, ToClient(client, request, requestId, owner, tasks)) ==
            [Header(request, requestId, |tasks|)] + Lines(tasks)
            <==> Fits(CLIENT_OVERHEAD, tasks)
  {
    hide Print, WriteSuccess, WriteFrames, FramesOf, Lines, Unwrapped, Relay, StreamBytes, TaskInRange;
    ArrivesIffFits(client, 0, request, requestId, owner, tasks);
    if Fits(CLIENT_OVERHEAD, tasks) {
      FittingIsShort(tasks);
      assert forall i :: 0 <= i < |tasks| ==> TextsFit(tasks[i]);
      FormatReportsCommit(request, requestId, owner, tasks);
      RelayUnwraps(client, Z2C_TASK_RESULT,
                   WriteSuccess(request, requestId, owner, |tasks|, WriteFrames(FramesOf(tasks))));
    }
  }
}
