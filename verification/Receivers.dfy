// The two receivers of a commit, down to the bytes: the world server, which parses a whole stream
// before it applies any of it, and the game client, which applies tasks as it reads them and keeps
// mails only.
module Receivers {
  import opened Options
  import opened LittleEndian
  import opened TaskKind
  import opened TaskStream
  import opened TaskStreamLaws
  import opened Delivery
  import opened UnitOfWorkSpec

  // ---- Frames. ----

  // The complete frames at the start of a stream, `count` at most.
  function FramesIn(s: seq<Byte>, count: nat): (fs: seq<Frame>)
    ensures |fs| <= count
  {
    if count == 0 then []
    else
      match ReadFrame(s)
      case None => []
      case Some(g) => [g.value] + FramesIn(g.rest, count - 1)
  }

  lemma {:induction false} FramesComeBack(fs: seq<Frame>, rest: seq<Byte>)
    requires FramesFit(fs)
    ensures FramesIn(WriteFrames(fs) + rest, |fs|) == fs
    decreases |fs|
  {
    hide ReadFrame, WriteFrame;
    if fs != [] {
      var tail := WriteFrames(fs[1..]) + rest;
      assert WriteFrames(fs) + rest == WriteFrame(fs[0]) + tail;
      ReadWrittenFrame(fs[0], tail);
      FramesComeBack(fs[1..], rest);
    }
  }

  // ---- The world server's parser: all or nothing. ----

  datatype WorldCommit = WorldCommit(player: int, requestId: int, owner: nat, frames: seq<Frame>)

  function ParseCommit(body: seq<Byte>): Option<WorldCommit> {
    var player := ReadInt(body, W8);
    if player.None? then None else
    var requestId := ReadInt(player.value.rest, W8);
    if requestId.None? then None else
    var owner := ReadInt(requestId.value.rest, W8);
    if owner.None? then None else
    var count := ReadInt(owner.value.rest, W2);
    if count.None? then None else
    var frames := FramesIn(count.value.rest, count.value.value);
    if |frames| < count.value.value then None
    else Some(WorldCommit(AsSigned64(player.value.value), AsSigned64(requestId.value.value), owner.value.value, frames))
  }

  method Parse(body: seq<Byte>) returns (commit: Option<WorldCommit>)
    ensures commit == ParseCommit(body)
  {
    var reader := new BinaryReader(body);
    var player := reader.Read(W8);
    if player.None? { return None; }
    var requestId := reader.Read(W8);
    if requestId.None? { return None; }
    var owner := reader.Read(W8);
    if owner.None? { return None; }
    var count := reader.Read(W2);
    if count.None? { return None; }
    var frames, whole := ParseFrames(reader, count.value);
    if !whole { return None; }
    return Some(WorldCommit(AsSigned64(player.value), AsSigned64(requestId.value), owner.value, frames));
  }

  method ParseFrames(reader: BinaryReader, count: nat) returns (frames: seq<Frame>, whole: bool)
    requires reader.Valid()
    modifies reader
    ensures frames == FramesIn(old(reader.Rest()), count) && (whole <==> |frames| == count)
  {
    hide ReadFrame;
    frames, whole := [], true;
    for i := 0 to count
      invariant reader.Valid() && |frames| == i
      invariant frames + FramesIn(reader.Rest(), count - i) == FramesIn(old(reader.Rest()), count)
    {
      ghost var rest := reader.Rest();
      var f := NextFrame(reader);
      if f.None? {
        assert FramesIn(rest, count - i) == [];
        return frames, false;
      }
      assert FramesIn(rest, count - i) == [f.value] + FramesIn(reader.Rest(), count - i - 1);
      frames := frames + [f.value];
    }
  }

  // What the world server gets out of a packet that was handed to the session.
  function WorldReceives(p: Packet): Option<WorldCommit> {
    if Kept(p) == [] || p.id != Z2W_UNIT_OF_WORK_STREAM then None else ParseCommit(p.body)
  }

  lemma HeaderReads(unit: int, requestId: int, owner: nat, count: nat, stream: seq<Byte>)
    requires Int64(unit) && Int64(requestId) && owner < 2 * TWO_63 && count < 0x1_0000
    ensures var body := Write64(unit) + (Write64(requestId) + (Encode(owner, Bytes(W8)) +
                        (Encode(count, Bytes(W2)) + stream)));
            var frames := FramesIn(stream, count);
            ParseCommit(body) == if |frames| < count then None else Some(WorldCommit(unit, requestId, owner, frames))
  {
    hide ReadInt, Encode, AsSigned64, FramesIn, Write64;
    WidthLimits();
    var afterOwner := Encode(count, Bytes(W2)) + stream;
    var afterId := Encode(owner, Bytes(W8)) + afterOwner;
    ReadSigned64(unit, Write64(requestId) + afterId);
    ReadSigned64(requestId, afterId);
    ReadEncoded(owner, W8, afterOwner);
    ReadEncoded(count, W2, stream);
  }

  lemma FittingFrames(overhead: nat, tasks: seq<Task>)
    requires Fits(overhead, tasks) && forall i :: 0 <= i < |tasks| ==> TaskInRange(tasks[i])
    ensures |tasks| < 0x1_0000 && FramesFit(FramesOf(tasks))
    ensures forall i :: 0 <= i < |tasks| ==> TextsFit(tasks[i])
  {
    hide FrameOf, FrameFits, TaskInRange, StreamBytes;
    FittingIsShort(tasks);
    forall i | 0 <= i < |tasks|
      ensures FrameFits(FrameOf(tasks[i])) && TextsFit(tasks[i])
    {
      PayloadFits(tasks[i]);
    }
  }

  // The world server reads back exactly who, which request, which owner and which tasks, if and only
  // if the packet is within the limit.
  lemma WorldRoundTrip(unit: int, requestId: int, owner: nat, tasks: seq<Task>)
    requires Int64(unit) && Int64(requestId) && owner < 2 * TWO_63
    requires forall i :: 0 <= i < |tasks| ==> TaskInRange(tasks[i])
    ensures (WorldReceives(ToWorld(unit, requestId, owner, tasks)) ==
             Some(WorldCommit(unit, requestId, owner, FramesOf(tasks)))) <==> Fits(WORLD_OVERHEAD, tasks)
    ensures !Fits(WORLD_OVERHEAD, tasks) ==> WorldReceives(ToWorld(unit, requestId, owner, tasks)).None?
  {
    hide ParseCommit, WriteFrames, FramesOf, StreamBytes, FramesIn, FrameFits, TaskInRange, TextsFit, FramesFit;
    ArrivesIffFits(0, unit, 0, requestId, owner, tasks);
    if Fits(WORLD_OVERHEAD, tasks) {
      FittingFrames(WORLD_OVERHEAD, tasks);
      var stream := WriteFrames(FramesOf(tasks));
      FramesComeBack(FramesOf(tasks), []);
      assert stream + [] == stream;
      SameCount(tasks);
      HeaderReads(unit, requestId, owner, |tasks|, stream);
    }
  }

  lemma SameCount(tasks: seq<Task>)
    requires forall i :: 0 <= i < |tasks| ==> TaskInRange(tasks[i])
    ensures |FramesOf(tasks)| == |tasks|
  {
  }

  // ---- What the receivers do with a frame. ----

  // ApplyMailTask: put in or take out; nothing for a malformed payload or another sub task.
  function ApplyMail(r: PlayerState, subTask: Byte, payload: seq<Byte>): PlayerState {
    match DecodeMail(payload)
    case None => r
    case Some(m) =>
      if subTask == MAIL_ADDED then r.(mails := r.mails[m.mailId := m])
      else if subTask == MAIL_REMOVED then r.(mails := r.mails - {m.mailId})
      else r
  }

  // ApplyCurrencyTask: the new value; of the currencies only gold is followed here.
  function ApplyCurrency(r: PlayerState, payload: seq<Byte>): PlayerState {
    match DecodeCurrency(payload)
    case None => r
    case Some(c) => if c.kind == GOLD then r.(gold := c.newValue) else r
  }

  // The client has no rule for currencies.
  function ApplyFrame(r: PlayerState, f: Frame, currencies: bool): PlayerState {
    if CategoryOf(f.kind) == CATEGORY_MAIL then ApplyMail(r, SubTaskOf(f.kind), f.payload)
    else if CategoryOf(f.kind) == CATEGORY_CURRENCY && currencies then ApplyCurrency(r, f.payload)
    else r
  }

  function ApplyFrames(r: PlayerState, fs: seq<Frame>, currencies: bool): PlayerState
    decreases |fs|
  {
    if fs == [] then r else ApplyFrames(ApplyFrame(r, fs[0], currencies), fs[1..], currencies)
  }

  // The world server after a packet was handed to the session.
  function WorldAfter(r: PlayerState, p: Packet): PlayerState {
    var commit := WorldReceives(p);
    if commit.None? then r else ApplyFrames(r, commit.value.frames, true)
  }

  // The client after a packet was handed to the session.
  function ClientAfter(client: nat, r: PlayerState, p: Packet): PlayerState {
    var result := ResultFor(client, p);
    if result.None? then r else ApplyResult(r, result.value)
  }

  function ApplyResult(r: PlayerState, s: seq<Byte>): PlayerState {
    var error := ReadInt(s, W4);
    if error.None? then r else
    var request := ReadInt(error.value.rest, W2);
    if request.None? then r else
    var requestId := ReadInt(request.value.rest, W8);
    if requestId.None? || AsSigned32(error.value.value) != 0 then r else
    var owner := ReadInt(requestId.value.rest, W8);
    if owner.None? then r else
    var count := ReadInt(owner.value.rest, W2);
    if count.None? then r else
    ApplyFrames(r, FramesIn(count.value.rest, count.value.value), false)
  }

  predicate OfGold(t: Task) {
    t.UpdateCurrency? ==> t.kind == GOLD
  }

  // What a receiver has no rule for changes nothing: other categories, other sub tasks, currencies
  // other than gold, and payloads that do not begin with a mail or a currency change.
  lemma UnknownFramesChangeNothing(r: PlayerState, f: Frame, currencies: bool)
    requires
      || (CategoryOf(f.kind) != CATEGORY_MAIL && CategoryOf(f.kind) != CATEGORY_CURRENCY)
      || (CategoryOf(f.kind) == CATEGORY_MAIL && SubTaskOf(f.kind) != MAIL_ADDED && SubTaskOf(f.kind) != MAIL_REMOVED)
      || (CategoryOf(f.kind) == CATEGORY_MAIL && forall m :: !BeginsWith(f.payload, m))
      || (CategoryOf(f.kind) == CATEGORY_CURRENCY && (|f.payload| < 17 || f.payload[0] != GOLD))
    ensures ApplyFrame(r, f, currencies) == r
  {
    hide DecodeMail, BeginsWith;
    MailDecodesIffWritten(f.payload);
    if CategoryOf(f.kind) == CATEGORY_CURRENCY {
      CurrencyKindIsFirst(f.payload);
    }
  }

  lemma CurrencyKindIsFirst(payload: seq<Byte>)
    ensures DecodeCurrency(payload).Some? <==> |payload| >= 17
    ensures DecodeCurrency(payload).Some? ==> DecodeCurrency(payload).value.kind == payload[0]
  {
    hide AsSigned64;
    if payload != [] {
      assert payload[..1] == [payload[0]] && payload[..1][1..] == [];
    }
  }

  // What a receiver of mails only makes of a state.
  function MailsOnly(r: PlayerState, s: PlayerState): PlayerState {
    r.(mails := s.mails)
  }

  // A frame does to a receiver what its task did to the player.
  lemma FrameApplies(r: PlayerState, t: Task)
    requires TaskInRange(t) && TextsFit(t) && OfGold(t)
    ensures ApplyFrame(r, FrameOf(t), true) == Do(r, t)
    ensures ApplyFrame(r, FrameOf(t), false) == MailsOnly(r, Do(r, t))
  {
    hide DecodeMail, DecodeCurrency, WriteMail;
    match t {
      case UpdateCurrency(kind, n, p) =>
        KindsArePairs(CATEGORY_CURRENCY, CURRENCY_UPDATED, KindOf(t));
        CurrencyDecodesBack(kind, n, p);
      case AddMail(m, _) =>
        KindsArePairs(CATEGORY_MAIL, MAIL_ADDED, KindOf(t));
        MailDecodesBack(m, []);
        assert WriteMail(m) + [] == WriteMail(m);
      case RemoveMail(_, m) =>
        KindsArePairs(CATEGORY_MAIL, MAIL_REMOVED, KindOf(t));
        MailDecodesBack(m, []);
        assert WriteMail(m) + [] == WriteMail(m);
    }
  }

  lemma DoOnMails(r: PlayerState, s: PlayerState, t: Task)
    requires r.mails == s.mails
    ensures Do(r, t).mails == Do(s, t).mails
  {
  }

  lemma {:induction false} ReplayOnMails(r: PlayerState, s: PlayerState, tasks: seq<Task>)
    requires r.mails == s.mails
    ensures Replay(r, tasks).mails == Replay(s, tasks).mails
    decreases |tasks|
  {
    hide Do;
    if tasks != [] {
      DoOnMails(r, s, tasks[0]);
      ReplayOnMails(Do(r, tasks[0]), Do(s, tasks[0]), tasks[1..]);
    }
  }

  lemma {:induction false} FramesApply(r: PlayerState, tasks: seq<Task>)
    requires forall i :: 0 <= i < |tasks| ==> TaskInRange(tasks[i]) && TextsFit(tasks[i]) && OfGold(tasks[i])
    ensures ApplyFrames(r, FramesOf(tasks), true) == Replay(r, tasks)
    decreases |tasks|
  {
    hide ApplyFrame, FrameOf, Do, TaskInRange;
    if tasks != [] {
      FrameApplies(r, tasks[0]);
      FramesApply(Do(r, tasks[0]), tasks[1..]);
      assert FramesOf(tasks)[1..] == FramesOf(tasks[1..]);
    }
  }

  lemma {:induction false} FramesApplyToMails(r: PlayerState, s: PlayerState, tasks: seq<Task>)
    requires r.mails == s.mails
    requires forall i :: 0 <= i < |tasks| ==> TaskInRange(tasks[i]) && TextsFit(tasks[i]) && OfGold(tasks[i])
    ensures ApplyFrames(r, FramesOf(tasks), false) == MailsOnly(r, Replay(s, tasks))
    decreases |tasks|
  {
    hide ApplyFrame, FrameOf, Do, TaskInRange;
    if tasks != [] {
      FrameApplies(r, tasks[0]);
      DoOnMails(r, s, tasks[0]);
      FramesApplyToMails(MailsOnly(r, Do(r, tasks[0])), Do(s, tasks[0]), tasks[1..]);
      assert FramesOf(tasks)[1..] == FramesOf(tasks[1..]);
    }
  }

  // ---- From the commit to the receiver. ----

  // What the world server has after a commit is what following its tasks, as far as they fit, gives.
  lemma WorldFollows(r: PlayerState, unit: int, requestId: int, owner: nat, tasks: seq<Task>)
    requires Int64(unit) && Int64(requestId) && owner < 2 * TWO_63
    requires forall i :: 0 <= i < |tasks| ==> TaskInRange(tasks[i]) && OfGold(tasks[i])
    ensures WorldAfter(r, ToWorld(unit, requestId, owner, tasks)) == Follow(WORLD_OVERHEAD, r, Committed(tasks))
  {
    hide ToWorld, WorldReceives, FramesOf, ApplyFrames, Replay, Fits, TaskInRange, TextsFit;
    WorldRoundTrip(unit, requestId, owner, tasks);
    if Fits(WORLD_OVERHEAD, tasks) {
      FittingFrames(WORLD_OVERHEAD, tasks);
      FramesApply(r, tasks);
    }
  }

  lemma ResultApplies(r: PlayerState, request: nat, requestId: int, owner: nat, count: nat, stream: seq<Byte>)
    requires request < 0x1_0000 && Int64(requestId) && owner < 2 * TWO_63 && count < 0x1_0000
    ensures ApplyResult(r, WriteSuccess(request, requestId, owner, count, stream)) ==
            ApplyFrames(r, FramesIn(stream, count), false)
  {
    hide ReadInt, Encode, AsSigned64, Write64, ApplyFrames, FramesIn;
    WidthLimits();
    var afterOwner := Encode(count, Bytes(W2)) + stream;
    var afterId := Encode(owner, Bytes(W8)) + afterOwner;
    var afterRequest := Write64(requestId) + afterId;
    ReadEncoded(0, W4, Encode(request, Bytes(W2)) + afterRequest);
    ReadEncoded(request, W2, afterRequest);
    ReadSigned64(requestId, afterId);
    ReadEncoded(owner, W8, afterOwner);
    ReadEncoded(count, W2, stream);
  }

  // And the same for the mails of the client.
  lemma ClientFollows(client: nat, r: PlayerState, request: nat, requestId: int, owner: nat, tasks: seq<Task>)
    requires client < 2 * TWO_63 && request < 0x1_0000 && Int64(requestId) && owner < 2 * TWO_63
    requires forall i :: 0 <= i < |tasks| ==> TaskInRange(tasks[i]) && OfGold(tasks[i])
    ensures ClientAfter(client, r, ToClient(client, request, requestId, owner, tasks)) ==
            MailsOnly(r, Follow(CLIENT_OVERHEAD, r, Committed(tasks)))
  {
    hide WriteSuccess, WriteFrames, FramesOf, Unwrapped, Relay, StreamBytes, TaskInRange, ApplyResult, ApplyFrames,
         FramesIn, Replay, TextsFit;
    ArrivesIffFits(client, 0, request, requestId, owner, tasks);
    if Fits(CLIENT_OVERHEAD, tasks) {
      var stream := WriteFrames(FramesOf(tasks));
      FittingFrames(CLIENT_OVERHEAD, tasks);
      RelayUnwraps(client, Z2C_TASK_RESULT, WriteSuccess(request, requestId, owner, |tasks|, stream));
      ResultApplies(r, request, requestId, owner, |tasks|, stream);
      FramesComeBack(FramesOf(tasks), []);
      assert stream + [] == stream;
      SameCount(tasks);
      FramesApplyToMails(r, r, tasks);
    }
  }

  // ---- Everything that was handed to the session. ----

  function WorldAfterAll(r: PlayerState, ps: seq<Packet>): PlayerState {
    if ps == [] then r else WorldAfter(WorldAfterAll(r, ps[..|ps| - 1]), ps[|ps| - 1])
  }

  function ClientAfterAll(client: nat, r: PlayerState, ps: seq<Packet>): PlayerState {
    if ps == [] then r else ClientAfter(client, ClientAfterAll(client, r, ps[..|ps| - 1]), ps[|ps| - 1])
  }

  function ClientPrintsAll(client: nat, ps: seq<Packet>): seq<Line> {
    if ps == [] then [] else ClientPrintsAll(client, ps[..|ps| - 1]) + ClientPrints(client, ps[|ps| - 1])
  }

  lemma {:induction false} WorldAfterConcat(r: PlayerState, ps: seq<Packet>, qs: seq<Packet>)
    ensures WorldAfterAll(r, ps + qs) == WorldAfterAll(WorldAfterAll(r, ps), qs)
    decreases |qs|
  {
    hide WorldAfter;
    if qs == [] {
      assert ps + qs == ps;
    } else {
      WorldAfterConcat(r, ps, qs[..|qs| - 1]);
      assert (ps + qs)[..|ps + qs| - 1] == ps + qs[..|qs| - 1];
    }
  }

  lemma {:induction false} ClientAfterConcat(client: nat, r: PlayerState, ps: seq<Packet>, qs: seq<Packet>)
    ensures ClientAfterAll(client, r, ps + qs) == ClientAfterAll(client, ClientAfterAll(client, r, ps), qs)
    decreases |qs|
  {
    hide ClientAfter;
    if qs == [] {
      assert ps + qs == ps;
    } else {
      ClientAfterConcat(client, r, ps, qs[..|qs| - 1]);
      assert (ps + qs)[..|ps + qs| - 1] == ps + qs[..|qs| - 1];
    }
  }

  lemma {:induction false} PrintsConcat(client: nat, ps: seq<Packet>, qs: seq<Packet>)
    ensures ClientPrintsAll(client, ps + qs) == ClientPrintsAll(client, ps) + ClientPrintsAll(client, qs)
    decreases |qs|
  {
    hide ClientPrints;
    if qs == [] {
      assert ps + qs == ps;
    } else {
      PrintsConcat(client, ps, qs[..|qs| - 1]);
      assert (ps + qs)[..|ps + qs| - 1] == ps + qs[..|qs| - 1];
    }
  }

  lemma AfterConcat(client: nat, r: PlayerState, ps: seq<Packet>, qs: seq<Packet>)
    ensures WorldAfterAll(r, ps + qs) == WorldAfterAll(WorldAfterAll(r, ps), qs)
    ensures ClientAfterAll(client, r, ps + qs) == ClientAfterAll(client, ClientAfterAll(client, r, ps), qs)
    ensures ClientPrintsAll(client, ps + qs) == ClientPrintsAll(client, ps) + ClientPrintsAll(client, qs)
  {
    hide WorldAfterAll, ClientAfterAll, ClientPrintsAll;
    WorldAfterConcat(r, ps, qs);
    ClientAfterConcat(client, r, ps, qs);
    PrintsConcat(client, ps, qs);
  }

  // A packet has the same effect whether or not it was dropped before it was handed over.
  lemma AfterKept(client: nat, r: PlayerState, p: Packet)
    ensures WorldAfterAll(r, Kept(p)) == WorldAfter(r, p)
    ensures ClientAfterAll(client, r, Kept(p)) == ClientAfter(client, r, p)
    ensures ClientPrintsAll(client, Kept(p)) == ClientPrints(client, p)
  {
    hide ApplyFrames, ApplyResult, ParseCommit, Unwrapped, Print;
    if Kept(p) != [] {
      assert [p][..0] == [] && [p][0] == p;
    }
  }

  // Neither receiver minds the other's packet.
  lemma NotMine(client: nat, r: PlayerState, p: Packet)
    ensures p.id != Z2W_UNIT_OF_WORK_STREAM ==> WorldAfter(r, p) == r
    ensures p.id != Z2W_RELAY ==> ClientAfter(client, r, p) == r && ClientPrints(client, p) == []
  {
  }

  // A failure for the client.
  function FailureToClient(client: nat, request: nat, requestId: int, code: int): Packet
    requires Int64(requestId) && Int32(code)
  {
    Packet(Z2W_RELAY, Relay(client, Z2C_TASK_RESULT, Write32(code) + (Encode(request, Bytes(W2)) + Write64(requestId))))
  }

  lemma FailureArrives(client: nat, r: PlayerState, request: nat, requestId: int, code: int)
    requires client < 2 * TWO_63 && request < 0x1_0000 && Int64(requestId) && Int32(code) && code != 0
    ensures var p := FailureToClient(client, request, requestId, code);
            && Kept(p) == [p] && ClientAfter(client, r, p) == r
            && ClientPrints(client, p) == [Failed(request, requestId, code)]
  {
    hide Unwrapped, Print, ApplyFrames, FramesIn;
    var inner := Write32(code) + (Encode(request, Bytes(W2)) + Write64(requestId));
    assert |inner| == 14;
    RelayUnwraps(client, Z2C_TASK_RESULT, inner);
    FailureRoundTrip(request, requestId, code);
    FailureAppliesNothing(r, request, requestId, code);
  }

  lemma FailureAppliesNothing(r: PlayerState, request: nat, requestId: int, code: int)
    requires request < 0x1_0000 && Int64(requestId) && Int32(code) && code != 0
    ensures ApplyResult(r, Write32(code) + (Encode(request, Bytes(W2)) + Write64(requestId))) == r
  {
    hide ReadInt, Encode, ApplyFrames, FramesIn;
    WidthLimits();
    ReadEncoded(ToUnsigned(code, TWO_31), W4, Encode(request, Bytes(W2)) + Write64(requestId));
  }
}
