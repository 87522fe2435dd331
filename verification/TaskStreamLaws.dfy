// What the task-result format promises: commits survive the trip to the client, a bad task harms
// only itself, and a truncated packet prints a prefix.
module TaskStreamLaws {
  import opened Options
  import opened LittleEndian
  import opened TaskKind
  import opened TaskStream

  // ---- The server's side. ----

  predicate Int32(i: int) { 0 - TWO_31 <= i < TWO_31 }
  predicate Int64(i: int) { 0 - TWO_63 <= i < TWO_63 }

  function Write64(i: int): seq<Byte>
    requires Int64(i)
  {
    Encode(ToUnsigned(i, TWO_63), Bytes(W8))
  }

  function Write32(i: int): seq<Byte>
    requires Int32(i)
  {
    Encode(ToUnsigned(i, TWO_31), Bytes(W4))
  }

  // WriteString casts the length to 16 bits but writes every byte.
  function WriteString(text: seq<Byte>): seq<Byte> {
    Encode(|text| % 0x1_0000, Bytes(W2)) + text
  }

  predicate MailInRange(m: MailInfo) {
    Int64(m.mailId) && Int64(m.sendUt) && Int64(m.endUt)
  }

  // The three recorded changes, each with its new and previous value.
  datatype Task =
    | AddMail(newInfo: MailInfo, prevInfo: MailInfo)
    | RemoveMail(newInfo: MailInfo, prevInfo: MailInfo)
    | UpdateCurrency(kind: Byte, newValue: int, prevValue: int)

  // The mail that goes on the wire: what was added, or what was removed.
  function SentMail(t: Task): MailInfo
    requires !t.UpdateCurrency?
  {
    if t.AddMail? then t.newInfo else t.prevInfo
  }

  predicate TaskInRange(t: Task) {
    if t.UpdateCurrency? then Int64(t.newValue) && Int64(t.prevValue) else MailInRange(SentMail(t))
  }

  function KindOf(t: Task): nat {
    match t
    case AddMail(_, _) => MakeTaskKind(CATEGORY_MAIL, MAIL_ADDED)
    case RemoveMail(_, _) => MakeTaskKind(CATEGORY_MAIL, MAIL_REMOVED)
    case UpdateCurrency(_, _, _) => MakeTaskKind(CATEGORY_CURRENCY, CURRENCY_UPDATED)
  }

  function WriteMail(m: MailInfo): seq<Byte>
    requires MailInRange(m)
  {
    Write64(m.mailId) + (WriteString(m.title) + (WriteString(m.body) +
    (Write64(m.sendUt) + Write64(m.endUt))))
  }

  function WriteTask(t: Task): seq<Byte>
    requires TaskInRange(t)
  {
    if t.UpdateCurrency? then
      Encode(t.kind, Bytes(W1)) + (Write64(t.newValue) + Write64(t.prevValue))
    else
      WriteMail(SentMail(t))
  }

  function FrameOf(t: Task): Frame
    requires TaskInRange(t)
  {
    Frame(KindOf(t), WriteTask(t))
  }

  // A frame on the wire: kind, payload length, payload.
  function WriteFrame(f: Frame): seq<Byte> {
    Encode(f.kind, Bytes(W2)) + (Encode(|f.payload|, Bytes(W4)) + f.payload)
  }

  function WriteFrames(fs: seq<Frame>): seq<Byte> {
    if fs == [] then [] else WriteFrame(fs[0]) + WriteFrames(fs[1..])
  }

  predicate FrameFits(f: Frame) {
    f.kind < 0x1_0000 && |f.payload| < 0x1_0000_0000
  }

  predicate FramesFit(fs: seq<Frame>) {
    forall i :: 0 <= i < |fs| ==> FrameFits(fs[i])
  }

  // A success result: error code 0, request, then the owner and as many frames as the 16-bit count says.
  function WriteSuccess(request: nat, requestId: int, owner: nat, count: nat, frames: seq<Byte>): seq<Byte>
    requires Int64(requestId)
  {
    Write32(0) + (Encode(request, Bytes(W2)) + (Write64(requestId) +
    (Encode(owner, Bytes(W8)) + (Encode(count % 0x1_0000, Bytes(W2)) + frames))))
  }

  // ---- Reading back one value at a time. ----

  predicate FitsWidth(v: nat, w: Width) {
    v < Pow256(Bytes(w))
  }

  lemma ReadEncoded(v: nat, w: Width, rest: seq<Byte>)
    requires FitsWidth(v, w)
    ensures ReadInt(Encode(v, Bytes(w)) + rest, w) == Some(Got(v, rest))
  {
    var e := Encode(v, Bytes(w));
    DecodeEncode(v, Bytes(w));
    assert (e + rest)[..|e|] == e && (e + rest)[|e|..] == rest;
  }

  lemma WidthLimits()
    ensures Pow256(Bytes(W1)) == 0x100 && Pow256(Bytes(W2)) == 0x1_0000 && Pow256(Bytes(W4)) == 0x1_0000_0000
    ensures Pow256(Bytes(W8)) == 0x1_0000_0000_0000_0000
  {
  }

  lemma ReadSigned64(i: int, rest: seq<Byte>)
    requires Int64(i)
    ensures var r := ReadInt(Write64(i) + rest, W8);
            r.Some? && r.value.rest == rest && AsSigned64(r.value.value) == i
  {
    WidthLimits();
    ReadEncoded(ToUnsigned(i, TWO_63), W8, rest);
  }

  // The part of a string its 16-bit length prefix covers.
  function Covered(text: seq<Byte>): seq<Byte> {
    text[..|text| % 0x1_0000]
  }

  // A string comes back whole only up to 65535 bytes; a longer one is cut to its length's low 16
  // bits and the remainder stays in the way of whatever follows.
  lemma ReadWritten(text: seq<Byte>, rest: seq<Byte>)
    ensures ReadString(WriteString(text) + rest) ==
            Some(Got(Covered(text), text[|text| % 0x1_0000..] + rest))
  {
    var n := |text| % 0x1_0000;
    WidthLimits();
    ReadEncoded(n, W2, text + rest);
    assert WriteString(text) + rest == Encode(n, Bytes(W2)) + (text + rest);
    assert (text + rest)[..n] == text[..n] && (text + rest)[n..] == text[n..] + rest;
  }

  // ---- One task. ----

  function LineOf(t: Task): Line {
    match t
    case UpdateCurrency(kind, newValue, prevValue) => Currency(kind, prevValue, newValue)
    case AddMail(m, _) => Mail(true, m.mailId, m.title)
    case RemoveMail(_, m) => Mail(false, m.mailId, m.title)
  }

  lemma CurrencyRoundTrip(kind: Byte, newValue: int, prevValue: int)
    requires Int64(newValue) && Int64(prevValue)
    ensures CurrencyLines(WriteTask(UpdateCurrency(kind, newValue, prevValue))) == [Currency(kind, prevValue, newValue)]
  {
    CurrencyDecodesBack(kind, newValue, prevValue);
  }

  lemma ReadTwo(s: seq<Byte>)
    requires |s| >= 16
    ensures ReadInt(s, W8).Some? && ReadInt(ReadInt(s, W8).value.rest, W8).Some?
  {
  }

  // Behind a title that came back whole, the rest of a mail always reads.
  lemma MailTailReads(m: MailInfo)
    requires MailInRange(m)
    ensures var body := ReadString(WriteString(m.body) + (Write64(m.sendUt) + Write64(m.endUt)));
            && body.Some? && ReadInt(body.value.rest, W8).Some?
            && ReadInt(ReadInt(body.value.rest, W8).value.rest, W8).Some?
  {
    hide ReadInt, ReadString, WriteString, Write64;
    var times := Write64(m.sendUt) + Write64(m.endUt);
    ReadWritten(m.body, times);
    Size64(m.sendUt);
    Size64(m.endUt);
    ReadTwo(m.body[|m.body| % 0x1_0000..] + times);
  }

  // What the id and title of a written mail turn into on the way back.
  lemma MailReadsBack(m: MailInfo, subTask: Byte)
    requires MailInRange(m)
    ensures MailLines(subTask, WriteMail(m)) <= [Mail(subTask == MAIL_ADDED, m.mailId, Covered(m.title))]
    ensures |m.title| < 0x1_0000 ==> MailLines(subTask, WriteMail(m)) != []
  {
    hide ReadInt, ReadString, WriteString, Write64, AsSigned64;
    var afterTitle := WriteString(m.body) + (Write64(m.sendUt) + Write64(m.endUt));
    ReadSigned64(m.mailId, WriteString(m.title) + afterTitle);
    ReadWritten(m.title, afterTitle);
    MailTailReads(m);
    assert |m.title| < 0x1_0000 ==> m.title[|m.title| % 0x1_0000..] + afterTitle == afterTitle;
  }

  lemma Size64(i: int)
    requires Int64(i)
    ensures |Write64(i)| == 8
  {
  }

  lemma MailTaskReadsBack(t: Task, subTask: Byte)
    requires TaskInRange(t) && !t.UpdateCurrency?
    ensures MailLines(subTask, WriteTask(t)) <=
            [Mail(subTask == MAIL_ADDED, SentMail(t).mailId, Covered(SentMail(t).title))]
    ensures |SentMail(t).title| < 0x1_0000 ==> MailLines(subTask, WriteTask(t)) != []
  {
    hide MailLines, WriteMail;
    MailReadsBack(SentMail(t), subTask);
  }

  lemma CurrencyTaskRoundTrip(t: Task)
    requires TaskInRange(t) && t.UpdateCurrency?
    ensures CurrencyLines(WriteTask(t)) == [LineOf(t)]
  {
    hide CurrencyLines, WriteTask;
    CurrencyRoundTrip(t.kind, t.newValue, t.prevValue);
  }

  // ---- Payloads, field by field. ----

  // A mail whose texts their 16-bit lengths can announce.
  predicate Wireable(m: MailInfo) {
    MailInRange(m) && |m.title| < 0x1_0000 && |m.body| < 0x1_0000
  }

  lemma StringReadsBack(text: seq<Byte>, rest: seq<Byte>)
    requires |text| < 0x1_0000
    ensures ReadString(WriteString(text) + rest) == Some(Got(text, rest))
  {
    hide ReadString, WriteString;
    ReadWritten(text, rest);
    assert Covered(text) == text && text[|text| % 0x1_0000..] + rest == rest;
  }

  // Every field of a mail comes back, whatever follows it.
  lemma MailDecodesBack(m: MailInfo, rest: seq<Byte>)
    requires Wireable(m)
    ensures DecodeMail(WriteMail(m) + rest) == Some(m)
  {
    hide ReadInt, ReadString, WriteString, Write64, AsSigned64;
    var afterSend := Write64(m.endUt) + rest;
    var afterBody := Write64(m.sendUt) + afterSend;
    var afterTitle := WriteString(m.body) + afterBody;
    var afterId := WriteString(m.title) + afterTitle;
    assert WriteMail(m) + rest == Write64(m.mailId) + afterId;
    ReadSigned64(m.mailId, afterId);
    StringReadsBack(m.title, afterTitle);
    StringReadsBack(m.body, afterBody);
    ReadSigned64(m.sendUt, afterSend);
    ReadSigned64(m.endUt, rest);
  }

  // And a payload decodes only if it begins with the mail it decodes to.
  lemma MailWasWritten(payload: seq<Byte>)
    requires DecodeMail(payload).Some?
    ensures Wireable(DecodeMail(payload).value) && WriteMail(DecodeMail(payload).value) <= payload
  {
    hide ReadInt, ReadString, WriteString, Write64, AsSigned64;
    var id := ReadInt(payload, W8).value;
    var title := ReadString(id.rest).value;
    var body := ReadString(title.rest).value;
    var sendUt := ReadInt(body.rest, W8).value;
    var endUt := ReadInt(sendUt.rest, W8).value;
    Read64WasWritten(payload);
    ReadStringWasWritten(id.rest);
    ReadStringWasWritten(title.rest);
    Read64WasWritten(body.rest);
    Read64WasWritten(sendUt.rest);
    assert payload == WriteMail(DecodeMail(payload).value) + endUt.rest;
  }

  lemma CurrencyDecodesBack(kind: Byte, newValue: int, prevValue: int)
    requires Int64(newValue) && Int64(prevValue)
    ensures DecodeCurrency(WriteTask(UpdateCurrency(kind, newValue, prevValue))) ==
            Some(CurrencyChange(kind, newValue, prevValue))
  {
    hide ReadInt, Write64, AsSigned64;
    WidthLimits();
    var old' := Write64(prevValue);
    ReadEncoded(kind, W1, Write64(newValue) + old');
    ReadSigned64(newValue, old');
    ReadSigned64(prevValue, []);
    assert old' + [] == old';
  }

  // The title can be announced by a 16-bit length.
  predicate TitleFits(t: Task) {
    t.UpdateCurrency? || |SentMail(t).title| < 0x1_0000
  }

  // One recorded change comes back as exactly its line if and only if its title fits the 16-bit
  // length prefix. (The limits on new mails, 128 and 1024 bytes, keep every title far below that.)
  lemma TaskRoundTrip(t: Task)
    requires TaskInRange(t)
    ensures TaskLines(FrameOf(t)) == [LineOf(t)] <==> TitleFits(t)
  {
    hide MailLines, CurrencyLines, WriteTask, TaskInRange;
    var f := FrameOf(t);
    if t.UpdateCurrency? {
      KindsArePairs(CATEGORY_CURRENCY, CURRENCY_UPDATED, f.kind);
      CurrencyTaskRoundTrip(t);
    } else {
      var sub := if t.AddMail? then MAIL_ADDED else MAIL_REMOVED;
      KindsArePairs(CATEGORY_MAIL, sub, f.kind);
      MailTaskReadsBack(t, sub);
      assert TaskLines(f) == MailLines(sub, f.payload);
      var title := SentMail(t).title;
      var lines := TaskLines(f);
      assert |lines| <= 1 && (lines != [] ==> lines[0].title == Covered(title));
      assert |title| < 0x1_0000 ==> Covered(title) == title && |lines| == 1 && lines == [LineOf(t)];
      assert |title| >= 0x1_0000 ==> |Covered(title)| != |title|;
    }
  }

  // ---- Many tasks. ----

  function AllLines(fs: seq<Frame>): seq<Line> {
    if fs == [] then [] else TaskLines(fs[0]) + AllLines(fs[1..])
  }

  lemma ReadWrittenFrame(f: Frame, rest: seq<Byte>)
    requires FrameFits(f)
    ensures ReadFrame(WriteFrame(f) + rest) == Some(Got(f, rest))
  {
    hide ReadInt, Encode;
    WidthLimits();
    var length := Encode(|f.payload|, Bytes(W4));
    assert WriteFrame(f) + rest == Encode(f.kind, Bytes(W2)) + (length + (f.payload + rest));
    ReadEncoded(f.kind, W2, length + (f.payload + rest));
    ReadEncoded(|f.payload|, W4, f.payload + rest);
    assert (f.payload + rest)[..|f.payload|] == f.payload && (f.payload + rest)[|f.payload|..] == rest;
  }

  lemma {:induction false} LoopPrintsFrames(fs: seq<Frame>, rest: seq<Byte>)
    requires FramesFit(fs)
    ensures TaskLoop(WriteFrames(fs) + rest, |fs|) == AllLines(fs)
    decreases |fs|
  {
    hide ReadFrame, TaskLines, WriteFrame;
    if fs == [] {
    } else {
      var tail := WriteFrames(fs[1..]) + rest;
      assert WriteFrames(fs) + rest == WriteFrame(fs[0]) + tail;
      ReadWrittenFrame(fs[0], tail);
      LoopPrintsFrames(fs[1..], rest);
    }
  }

  // A success result prints its header and then, frame by frame, what each frame says by itself.
  lemma SuccessPrintsFrames(request: nat, requestId: int, owner: nat, fs: seq<Frame>, rest: seq<Byte>)
    requires request < 0x1_0000 && Int64(requestId) && owner < 2 * TWO_63
    requires |fs| < 0x1_0000 && FramesFit(fs)
    ensures Print(WriteSuccess(request, requestId, owner, |fs|, WriteFrames(fs) + rest)) ==
            [Header(request, requestId, |fs|)] + AllLines(fs)
  {
    hide Print, WriteSuccess, TaskLoop, AllLines, WriteFrames, FrameFits;
    var stream := WriteFrames(fs) + rest;
    assert TaskLoop(stream, |fs|) == AllLines(fs) by {
      LoopPrintsFrames(fs, rest);
    }
    SuccessHeader(request, requestId, owner, |fs|, stream);
    assert |fs| % 0x1_0000 == |fs|;
  }

  // The header of a success result, for any announced count: the client sees it modulo 2^16.
  lemma SuccessHeader(request: nat, requestId: int, owner: nat, count: nat, stream: seq<Byte>)
    requires request < 0x1_0000 && Int64(requestId) && owner < 2 * TWO_63
    ensures Print(WriteSuccess(request, requestId, owner, count, stream)) ==
            [Header(request, requestId, count % 0x1_0000)] + TaskLoop(stream, count % 0x1_0000)
  {
    hide ReadInt, Encode, AsSigned64, TaskLoop;
    WidthLimits();
    var n := count % 0x1_0000;
    var afterOwner := Encode(n, Bytes(W2)) + stream;
    var afterId := Encode(owner, Bytes(W8)) + afterOwner;
    var afterRequest := Write64(requestId) + afterId;
    ReadEncoded(0, W4, Encode(request, Bytes(W2)) + afterRequest);
    ReadEncoded(request, W2, afterRequest);
    ReadSigned64(requestId, afterId);
    ReadEncoded(owner, W8, afterOwner);
    ReadEncoded(n, W2, stream);
  }

  // ---- The laws. ----

  // Changing one task's payload or kind, in any way a frame can carry, changes what that task
  // prints and nothing else.
  lemma FaultIsolation(request: nat, requestId: int, owner: nat, fs: seq<Frame>, i: nat, bad: Frame)
    requires request < 0x1_0000 && Int64(requestId) && owner < 2 * TWO_63
    requires |fs| < 0x1_0000 && FramesFit(fs) && i < |fs| && FrameFits(bad)
    ensures var header := [Header(request, requestId, |fs|)];
            && Print(WriteSuccess(request, requestId, owner, |fs|, WriteFrames(fs))) ==
               header + AllLines(fs[..i]) + TaskLines(fs[i]) + AllLines(fs[i + 1..])
            && Print(WriteSuccess(request, requestId, owner, |fs|, WriteFrames(fs[i := bad]))) ==
               header + AllLines(fs[..i]) + TaskLines(bad) + AllLines(fs[i + 1..])
  {
    hide Print, WriteSuccess, WriteFrames, TaskLines, AllLines;
    var changed := fs[i := bad];
    SuccessPrintsFrames(request, requestId, owner, fs, []);
    SuccessPrintsFrames(request, requestId, owner, changed, []);
    assert WriteFrames(fs) + [] == WriteFrames(fs) && WriteFrames(changed) + [] == WriteFrames(changed);
    AllLinesSplit(fs, i);
    AllLinesSplit(changed, i);
    assert changed[..i] == fs[..i] && changed[i + 1..] == fs[i + 1..];
  }

  lemma {:induction false} AllLinesSplit(fs: seq<Frame>, i: nat)
    requires i < |fs|
    ensures AllLines(fs) == AllLines(fs[..i]) + TaskLines(fs[i]) + AllLines(fs[i + 1..])
    decreases i
  {
    hide TaskLines;
    if i > 0 {
      AllLinesSplit(fs[1..], i - 1);
      assert fs[1..][..i - 1] == fs[..i][1..] && fs[1..][i..] == fs[i + 1..];
    }
  }

  // A task of unknown category prints its notice whatever its payload; a malformed one prints nothing.
  lemma UnknownAndMalformedAreSkipped(f: Frame)
    requires f.kind < 0x1_0000
    ensures CategoryOf(f.kind) != CATEGORY_MAIL && CategoryOf(f.kind) != CATEGORY_CURRENCY ==>
              TaskLines(f) == [Unknown(f.kind)]
    ensures CategoryOf(f.kind) == CATEGORY_CURRENCY ==> (TaskLines(f) == [] <==> |f.payload| < 17)
    ensures CategoryOf(f.kind) == CATEGORY_MAIL ==> (TaskLines(f) != [] <==> exists m :: BeginsWith(f.payload, m))
    ensures CategoryOf(f.kind) == CATEGORY_MAIL ==>
              forall m :: BeginsWith(f.payload, m) ==>
                TaskLines(f) == [Mail(SubTaskOf(f.kind) == MAIL_ADDED, m.mailId, m.title)]
  {
    hide DecodeMail, BeginsWith, CurrencyLines;
    CurrencyPrintsIffLong(f.payload);
    MailDecodesIffWritten(f.payload);
  }

  lemma CurrencyPrintsIffLong(payload: seq<Byte>)
    ensures CurrencyLines(payload) == [] <==> |payload| < 17
  {
    hide Decode, AsSigned64;
  }

  // The payload starts with the bytes of a mail, and every byte of it counts.
  predicate BeginsWith(payload: seq<Byte>, m: MailInfo) {
    Wireable(m) && WriteMail(m) <= payload
  }

  lemma MailDecodesIffWritten(payload: seq<Byte>)
    ensures DecodeMail(payload).Some? <==> exists m :: BeginsWith(payload, m)
    ensures forall m :: BeginsWith(payload, m) ==> DecodeMail(payload) == Some(m)
  {
    hide DecodeMail, WriteMail;
    if DecodeMail(payload).Some? {
      MailWasWritten(payload);
      assert BeginsWith(payload, DecodeMail(payload).value);
    }
    forall m | BeginsWith(payload, m)
      ensures DecodeMail(payload) == Some(m)
    {
      var n := |WriteMail(m)|;
      assert payload == WriteMail(m) + payload[n..];
      MailDecodesBack(m, payload[n..]);
    }
  }

  // ZoneUnitOfWork::Serialize, whose count is the number of tasks cast to 16 bits.
  function FramesOf(tasks: seq<Task>): seq<Frame>
    requires forall i :: 0 <= i < |tasks| ==> TaskInRange(tasks[i])
  {
    seq(|tasks|, i requires 0 <= i < |tasks| => FrameOf(tasks[i]))
  }

  function Lines(tasks: seq<Task>): seq<Line> {
    seq(|tasks|, i requires 0 <= i < |tasks| => LineOf(tasks[i]))
  }

  // The format by itself, whatever the size of the packet: every change prints, in order, under a
  // header that says how many there are, if and only if there are fewer than 65536 of them and every
  // title fits.
  lemma FormatRoundTrip(request: nat, requestId: int, owner: nat, tasks: seq<Task>)
    requires request < 0x1_0000 && Int64(requestId) && owner < 2 * TWO_63
    requires forall i :: 0 <= i < |tasks| ==> TaskInRange(tasks[i]) && FrameFits(FrameOf(tasks[i]))
    ensures Print(WriteSuccess(request, requestId, owner, |tasks|, WriteFrames(FramesOf(tasks)))) ==
            [Header(request, requestId, |tasks|)] + Lines(tasks)
            <==> |tasks| < 0x1_0000 && forall i :: 0 <= i < |tasks| ==> TitleFits(tasks[i])
  {
    hide Print, WriteSuccess, WriteFrames, TaskLines, AllLines, TaskLoop, FrameOf, TitleFits;
    var fs := FramesOf(tasks);
    var header := [Header(request, requestId, |tasks|)];
    if |tasks| < 0x1_0000 {
      SuccessPrintsFrames(request, requestId, owner, fs, []);
      assert WriteFrames(fs) + [] == WriteFrames(fs);
      TasksPrintTheirLines(tasks);
      assert (header + AllLines(fs))[1..] == AllLines(fs) && (header + Lines(tasks))[1..] == Lines(tasks);
    } else {
      SuccessHeader(request, requestId, owner, |tasks|, WriteFrames(fs));
      assert (header + Lines(tasks))[0].tasks == |tasks|;
    }
  }

  predicate TextsFit(t: Task) {
    t.UpdateCurrency? || (|SentMail(t).title| < 0x1_0000 && |SentMail(t).body| < 0x1_0000)
  }

  lemma PayloadFits(t: Task)
    requires TaskInRange(t) && TextsFit(t)
    ensures FrameFits(FrameOf(t))
  {
  }

  // In particular fewer than 65536 changes whose texts fit their length prefixes.
  lemma FormatReportsCommit(request: nat, requestId: int, owner: nat, tasks: seq<Task>)
    requires request < 0x1_0000 && Int64(requestId) && owner < 2 * TWO_63 && |tasks| < 0x1_0000
    requires forall i :: 0 <= i < |tasks| ==> TaskInRange(tasks[i]) && TextsFit(tasks[i])
    ensures Print(WriteSuccess(request, requestId, owner, |tasks|, WriteFrames(FramesOf(tasks)))) ==
            [Header(request, requestId, |tasks|)] + Lines(tasks)
  {
    hide Print, WriteSuccess, WriteFrames, FramesOf, FrameOf, FrameFits, Lines;
    forall i | 0 <= i < |tasks|
      ensures FrameFits(FrameOf(tasks[i])) && TitleFits(tasks[i])
    {
      PayloadFits(tasks[i]);
    }
    FormatRoundTrip(request, requestId, owner, tasks);
  }

  // A commit of 65536 changes announces none, and none is printed.
  lemma CountWrapsToNone(request: nat, requestId: int, owner: nat, tasks: seq<Task>)
    requires request < 0x1_0000 && Int64(requestId) && owner < 2 * TWO_63 && |tasks| == 0x1_0000
    requires forall i :: 0 <= i < |tasks| ==> TaskInRange(tasks[i])
    ensures Print(WriteSuccess(request, requestId, owner, |tasks|, WriteFrames(FramesOf(tasks)))) ==
            [Header(request, requestId, 0)]
  {
    hide Print, WriteSuccess, WriteFrames, FramesOf;
    SuccessHeader(request, requestId, owner, |tasks|, WriteFrames(FramesOf(tasks)));
  }

  lemma AtMostOneLine(f: Frame)
    ensures |TaskLines(f)| <= 1
  {
  }

  lemma {:induction false} TasksPrintTheirLines(tasks: seq<Task>)
    requires forall i :: 0 <= i < |tasks| ==> TaskInRange(tasks[i])
    ensures |AllLines(FramesOf(tasks))| <= |tasks|
    ensures AllLines(FramesOf(tasks)) == Lines(tasks) <==> forall i :: 0 <= i < |tasks| ==> TitleFits(tasks[i])
    decreases |tasks|
  {
    hide TaskLines, FrameOf, LineOf;
    if tasks == [] {
    } else {
      var first, rest := TaskLines(FrameOf(tasks[0])), AllLines(FramesOf(tasks[1..]));
      TaskRoundTrip(tasks[0]);
      AtMostOneLine(FrameOf(tasks[0]));
      TasksPrintTheirLines(tasks[1..]);
      assert FramesOf(tasks)[1..] == FramesOf(tasks[1..]);
      assert Lines(tasks) == [LineOf(tasks[0])] + Lines(tasks[1..]);
      assert first + rest == [LineOf(tasks[0])] + Lines(tasks[1..]) ==>
               first == [LineOf(tasks[0])] && rest == Lines(tasks[1..]) by {
        if first + rest == [LineOf(tasks[0])] + Lines(tasks[1..]) {
          assert |first| == 1;
          assert (first + rest)[0] == first[0] && (first + rest)[1..] == rest;
        }
      }
      assert (forall i :: 0 <= i < |tasks| ==> TitleFits(tasks[i])) <==>
             TitleFits(tasks[0]) && forall i :: 0 <= i < |tasks[1..]| ==> TitleFits(tasks[1..][i]) by {
        assert forall i :: 1 <= i < |tasks| ==> tasks[i] == tasks[1..][i - 1];
      }
    }
  }

  // A failed request carries no tasks: its identity and its error code come back.
  lemma FailureRoundTrip(request: nat, requestId: int, error: int)
    requires request < 0x1_0000 && Int64(requestId) && Int32(error) && error != 0
    ensures Print(Write32(error) + (Encode(request, Bytes(W2)) + Write64(requestId))) ==
            [Failed(request, requestId, error)]
  {
    hide ReadInt, Encode, AsSigned64;
    WidthLimits();
    ReadEncoded(ToUnsigned(error, TWO_31), W4, Encode(request, Bytes(W2)) + Write64(requestId));
    ReadEncoded(request, W2, Write64(requestId));
    ReadSigned64(requestId, []);
    assert Write64(requestId) + [] == Write64(requestId);
  }

  // ---- Truncation. ----

  lemma ReadPrefix(p: seq<Byte>, s: seq<Byte>, w: Width)
    requires p <= s && ReadInt(p, w).Some?
    ensures ReadInt(s, w).Some? && ReadInt(p, w).value.value == ReadInt(s, w).value.value
    ensures ReadInt(p, w).value.rest <= ReadInt(s, w).value.rest
  {
    assert p[..Bytes(w)] == s[..Bytes(w)];
  }

  lemma ReadFramePrefix(p: seq<Byte>, s: seq<Byte>)
    requires p <= s && ReadFrame(p).Some?
    ensures ReadFrame(s).Some? && ReadFrame(p).value.value == ReadFrame(s).value.value
    ensures ReadFrame(p).value.rest <= ReadFrame(s).value.rest
  {
    hide ReadInt;
    ReadPrefix(p, s, W2);
    var p1, s1 := ReadInt(p, W2).value.rest, ReadInt(s, W2).value.rest;
    ReadPrefix(p1, s1, W4);
    var p2, s2, n := ReadInt(p1, W4).value.rest, ReadInt(s1, W4).value.rest, ReadInt(p1, W4).value.value;
    assert p2[..n] == s2[..n];
  }

  lemma {:induction false} LoopMonotone(p: seq<Byte>, s: seq<Byte>, count: nat)
    requires p <= s
    ensures TaskLoop(p, count) <= TaskLoop(s, count)
    decreases count
  {
    hide ReadFrame, TaskLines;
    if count > 0 && ReadFrame(p).Some? {
      ReadFramePrefix(p, s);
      LoopMonotone(ReadFrame(p).value.rest, ReadFrame(s).value.rest, count - 1);
    }
  }

  // Cutting a packet short anywhere only cuts its output short.
  lemma TruncationPrintsPrefix(p: seq<Byte>, s: seq<Byte>)
    requires p <= s
    ensures Print(p) <= Print(s)
  {
    hide ReadInt, AsSigned64, TaskLoop;
    if ReadInt(p, W4).Some? {
      ReadPrefix(p, s, W4);
      var p1, s1 := ReadInt(p, W4).value.rest, ReadInt(s, W4).value.rest;
      if ReadInt(p1, W2).Some? {
        ReadPrefix(p1, s1, W2);
        var p2, s2 := ReadInt(p1, W2).value.rest, ReadInt(s1, W2).value.rest;
        if ReadInt(p2, W8).Some? {
          ReadPrefix(p2, s2, W8);
          var p3, s3 := ReadInt(p2, W8).value.rest, ReadInt(s2, W8).value.rest;
          SuccessTruncates(ReadInt(p1, W2).value.value, AsSigned64(ReadInt(p2, W8).value.value), p3, s3);
        }
      }
    }
  }

  lemma SuccessTruncates(request: nat, requestId: int, p: seq<Byte>, s: seq<Byte>)
    requires p <= s
    ensures PrintSuccess(request, requestId, p) <= PrintSuccess(request, requestId, s)
  {
    hide ReadInt, TaskLoop;
    if ReadInt(p, W8).Some? {
      ReadPrefix(p, s, W8);
      var p1, s1 := ReadInt(p, W8).value.rest, ReadInt(s, W8).value.rest;
      if ReadInt(p1, W2).Some? {
        ReadPrefix(p1, s1, W2);
        LoopMonotone(ReadInt(p1, W2).value.rest, ReadInt(s1, W2).value.rest, ReadInt(p1, W2).value.value);
      }
    }
  }

  // Whatever bytes arrive, the tasks printed are those of complete frames at the front of the
  // stream, and the loop stops short of its count only where no complete frame follows.
  lemma {:induction false} OnlyCompleteFramesPrint(s: seq<Byte>, count: nat) returns (fs: seq<Frame>, rest: seq<Byte>)
    ensures s == WriteFrames(fs) + rest && |fs| <= count && FramesFit(fs)
    ensures TaskLoop(s, count) == AllLines(fs)
    ensures |fs| == count || ReadFrame(rest).None?
    decreases count
  {
    hide ReadFrame, TaskLines, WriteFrame;
    if count == 0 || ReadFrame(s).None? {
      fs, rest := [], s;
    } else {
      var g := ReadFrame(s).value;
      ReadFrameWasWritten(s);
      var tail;
      tail, rest := OnlyCompleteFramesPrint(g.rest, count - 1);
      fs := [g.value] + tail;
      assert fs[1..] == tail;
    }
  }

  lemma ReadIntWasWritten(s: seq<Byte>, w: Width)
    requires ReadInt(s, w).Some?
    ensures var g := ReadInt(s, w).value; FitsWidth(g.value, w) && s == Encode(g.value, Bytes(w)) + g.rest
  {
    var taken := s[..Bytes(w)];
    EncodeDecode(taken);
    DecodeBound(taken);
  }

  lemma ReadStringWasWritten(s: seq<Byte>)
    requires ReadString(s).Some?
    ensures var g := ReadString(s).value; |g.value| < 0x1_0000 && s == WriteString(g.value) + g.rest
  {
    hide ReadInt, Encode;
    WidthLimits();
    ReadIntWasWritten(s, W2);
    var n := ReadInt(s, W2).value;
    assert n.rest == n.rest[..n.value] + n.rest[n.value..];
  }

  lemma Read64WasWritten(s: seq<Byte>)
    requires ReadInt(s, W8).Some?
    ensures var g := ReadInt(s, W8).value; Int64(AsSigned64(g.value)) && s == Write64(AsSigned64(g.value)) + g.rest
  {
    hide ReadInt, Encode;
    WidthLimits();
    ReadIntWasWritten(s, W8);
  }

  lemma ReadFrameWasWritten(s: seq<Byte>)
    requires ReadFrame(s).Some?
    ensures var g := ReadFrame(s).value; FrameFits(g.value) && s == WriteFrame(g.value) + g.rest
  {
    hide ReadInt, Encode;
    WidthLimits();
    ReadIntWasWritten(s, W2);
    var g := ReadInt(s, W2).value;
    ReadIntWasWritten(g.rest, W4);
    var h := ReadInt(g.rest, W4).value;
    assert h.rest == h.rest[..h.value] + h.rest[h.value..];
  }
}
