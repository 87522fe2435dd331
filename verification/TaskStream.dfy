// The task-result packet: what the zone server writes and what PrintTaskResult makes of it.
module TaskStream {
  import opened Options
  import opened LittleEndian
  import opened TaskKind

  // Sizes of the integers on the wire.
  datatype Width = W1 | W2 | W4 | W8

  function Bytes(w: Width): nat {
    match w case W1 => 1 case W2 => 2 case W4 => 4 case W8 => 8
  }

  // ---- Reading a span: each read yields a value and the bytes after it, or fails. ----

  datatype Got<+T> = Got(value: T, rest: seq<Byte>)

  function ReadBytes(s: seq<Byte>, length: nat): Option<Got<seq<Byte>>> {
    if length > |s| then None else Some(Got(s[..length], s[length..]))
  }

  function ReadInt(s: seq<Byte>, w: Width): Option<Got<nat>> {
    match ReadBytes(s, Bytes(w))
    case None => None
    case Some(g) => Some(Got(Decode(g.value), g.rest))
  }

  function ReadString(s: seq<Byte>): Option<Got<seq<Byte>>> {
    match ReadInt(s, W2)
    case None => None
    case Some(g) => ReadBytes(g.rest, g.value)
  }

  // ---- What is printed. ----

  datatype Line =
    | Failed(request: nat, requestId: int, error: int)
    | Header(request: nat, requestId: int, tasks: nat)
    | Currency(kind: nat, oldValue: int, newValue: int)
    | Mail(added: bool, mailId: int, title: seq<Byte>)
    | Unknown(taskKind: nat)

  function AsSigned32(v: nat): int {
    ToSigned(v, TWO_31)
  }

  function AsSigned64(v: nat): int {
    ToSigned(v, TWO_63)
  }

  // Common::MailInfo.
  datatype MailInfo = MailInfo(mailId: int, title: seq<Byte>, body: seq<Byte>, sendUt: int, endUt: int)

  datatype CurrencyChange = CurrencyChange(kind: Byte, newValue: int, oldValue: int)

  // The two payloads, as every reader of the stream reads them.
  function DecodeCurrency(payload: seq<Byte>): Option<CurrencyChange> {
    var type_ := ReadInt(payload, W1);
    if type_.None? then None else
    var newValue := ReadInt(type_.value.rest, W8);
    if newValue.None? then None else
    var oldValue := ReadInt(newValue.value.rest, W8);
    if oldValue.None? then None else
    Some(CurrencyChange(type_.value.value % 256, AsSigned64(newValue.value.value), AsSigned64(oldValue.value.value)))
  }

  function DecodeMail(payload: seq<Byte>): Option<MailInfo> {
    var mailId := ReadInt(payload, W8);
    if mailId.None? then None else
    var title := ReadString(mailId.value.rest);
    if title.None? then None else
    var body := ReadString(title.value.rest);
    if body.None? then None else
    var sendUt := ReadInt(body.value.rest, W8);
    if sendUt.None? then None else
    var endUt := ReadInt(sendUt.value.rest, W8);
    if endUt.None? then None else
    Some(MailInfo(AsSigned64(mailId.value.value), title.value.value, body.value.value,
                  AsSigned64(sendUt.value.value), AsSigned64(endUt.value.value)))
  }

  function CurrencyLines(payload: seq<Byte>): seq<Line> {
    match DecodeCurrency(payload)
    case None => []
    case Some(c) => [Currency(c.kind, c.oldValue, c.newValue)]
  }

  function MailLines(subTask: Byte, payload: seq<Byte>): seq<Line> {
    match DecodeMail(payload)
    case None => []
    case Some(m) => [Mail(subTask == MAIL_ADDED, m.mailId, m.title)]
  }

  // One framed task: nothing if its payload is malformed, a notice if its category is unknown.
  datatype Frame = Frame(kind: nat, payload: seq<Byte>)

  function TaskLines(f: Frame): seq<Line> {
    if CategoryOf(f.kind) == CATEGORY_CURRENCY then CurrencyLines(f.payload)
    else if CategoryOf(f.kind) != CATEGORY_MAIL then [Unknown(f.kind)]
    else MailLines(SubTaskOf(f.kind), f.payload)
  }

  function ReadFrame(s: seq<Byte>): Option<Got<Frame>> {
    var kind := ReadInt(s, W2);
    if kind.None? then None else
    var length := ReadInt(kind.value.rest, W4);
    if length.None? then None else
    var payload := ReadBytes(length.value.rest, length.value.value);
    if payload.None? then None else
    Some(Got(Frame(kind.value.value, payload.value.value), payload.value.rest))
  }

  // The counted loop: stop at the first frame that is cut short.
  function TaskLoop(s: seq<Byte>, count: nat): seq<Line> {
    if count == 0 then []
    else
      match ReadFrame(s)
      case None => []
      case Some(g) => TaskLines(g.value) + TaskLoop(g.rest, count - 1)
  }

  function PrintSuccess(request: nat, requestId: int, s: seq<Byte>): seq<Line> {
    var owner := ReadInt(s, W8);
    if owner.None? then [] else
    var count := ReadInt(owner.value.rest, W2);
    if count.None? then [] else
    [Header(request, requestId, count.value.value)] + TaskLoop(count.value.rest, count.value.value)
  }

  function Print(s: seq<Byte>): seq<Line> {
    var error := ReadInt(s, W4);
    if error.None? then [] else
    var request := ReadInt(error.value.rest, W2);
    if request.None? then [] else
    var requestId := ReadInt(request.value.rest, W8);
    if requestId.None? then [] else
    if AsSigned32(error.value.value) != 0 then
      [Failed(request.value.value, AsSigned64(requestId.value.value), AsSigned32(error.value.value))]
    else
      PrintSuccess(request.value.value, AsSigned64(requestId.value.value), requestId.value.rest)
  }

  // ---- The same, as the program does it: a cursor over the span. ----

  class BinaryReader {
    const data: seq<Byte>
    var position: nat

    ghost predicate Valid()
      reads this
    {
      position <= |data|
    }

    // What is left to read.
    ghost function Rest(): seq<Byte>
      requires Valid()
      reads this
    {
      data[position..]
    }

    constructor (data: seq<Byte>)
      ensures Valid() && Rest() == data
    {
      this.data, position := data, 0;
    }

    method Take(length: nat) returns (bytes: Option<seq<Byte>>)
      requires Valid()
      modifies this
      ensures Valid()
      ensures match ReadBytes(old(Rest()), length)
              case None => bytes.None? && position == old(position)
              case Some(g) => bytes == Some(g.value) && Rest() == g.rest
    {
      if position + length > |data| {
        return None;
      }
      var taken := data[position..position + length];
      assert taken == Rest()[..length] && data[position + length..] == Rest()[length..];
      bytes, position := Some(taken), position + length;
    }

    method Read(w: Width) returns (value: Option<nat>)
      requires Valid()
      modifies this
      ensures Valid()
      ensures match ReadInt(old(Rest()), w)
              case None => value.None? && position == old(position)
              case Some(g) => value == Some(g.value) && Rest() == g.rest
    {
      var bytes := Take(Bytes(w));
      value := if bytes.None? then None else Some(Decode(bytes.value));
    }

    method ReadText() returns (text: Option<seq<Byte>>)
      requires Valid()
      modifies this
      ensures Valid()
      ensures match ReadString(old(Rest()))
              case None => text.None?
              case Some(g) => text == Some(g.value) && Rest() == g.rest
    {
      var length := Read(W2);
      if length.None? {
        return None;
      }
      text := Take(length.value);
    }
  }

  method ReadCurrency(payload: seq<Byte>) returns (change: Option<CurrencyChange>)
    ensures change == DecodeCurrency(payload)
  {
    var reader := new BinaryReader(payload);
    var type_ := reader.Read(W1);
    if type_.None? { return None; }
    var newValue := reader.Read(W8);
    if newValue.None? { return None; }
    var oldValue := reader.Read(W8);
    if oldValue.None? { return None; }
    return Some(CurrencyChange(type_.value % 256, AsSigned64(newValue.value), AsSigned64(oldValue.value)));
  }

  method PrintCurrency(payload: seq<Byte>) returns (lines: seq<Line>)
    ensures lines == CurrencyLines(payload)
  {
    var change := ReadCurrency(payload);
    if change.None? { return []; }
    return [Currency(change.value.kind, change.value.oldValue, change.value.newValue)];
  }

  method ReadMail(payload: seq<Byte>) returns (mail: Option<MailInfo>)
    ensures mail == DecodeMail(payload)
  {
    var reader := new BinaryReader(payload);
    var mailId := reader.Read(W8);
    if mailId.None? { return None; }
    var title := reader.ReadText();
    if title.None? { return None; }
    var body := reader.ReadText();
    if body.None? { return None; }
    var sendUt := reader.Read(W8);
    if sendUt.None? { return None; }
    var endUt := reader.Read(W8);
    if endUt.None? { return None; }
    return Some(MailInfo(AsSigned64(mailId.value), title.value, body.value,
                         AsSigned64(sendUt.value), AsSigned64(endUt.value)));
  }

  method PrintMail(subTask: Byte, payload: seq<Byte>) returns (lines: seq<Line>)
    ensures lines == MailLines(subTask, payload)
  {
    var mail := ReadMail(payload);
    if mail.None? { return []; }
    return [Mail(subTask == MAIL_ADDED, mail.value.mailId, mail.value.title)];
  }

  // The payload of one task, by category.
  method PrintTask(kind: nat, payload: seq<Byte>) returns (lines: seq<Line>)
    ensures lines == TaskLines(Frame(kind, payload))
  {
    if CategoryOf(kind) == CATEGORY_CURRENCY {
      lines := PrintCurrency(payload);
      return;
    }
    if CategoryOf(kind) != CATEGORY_MAIL {
      return [Unknown(kind)];
    }
    lines := PrintMail(SubTaskOf(kind), payload);
  }

  // One round of the loop up to the payload.
  method NextFrame(reader: BinaryReader) returns (f: Option<Frame>)
    requires reader.Valid()
    modifies reader
    ensures reader.Valid()
    ensures match ReadFrame(old(reader.Rest()))
            case None => f.None?
            case Some(g) => f == Some(g.value) && reader.Rest() == g.rest
  {
    var kind := reader.Read(W2);
    if kind.None? { return None; }
    var length := reader.Read(W4);
    if length.None? { return None; }
    var payload := reader.Take(length.value);
    if payload.None? { return None; }
    return Some(Frame(kind.value, payload.value));
  }

  // One round of the loop, of `left` rounds to go.
  method PrintNext(reader: BinaryReader, ghost left: nat) returns (lines: seq<Line>, more: bool)
    requires reader.Valid() && left > 0
    modifies reader
    ensures reader.Valid()
    ensures TaskLoop(old(reader.Rest()), left) == if more then lines + TaskLoop(reader.Rest(), left - 1) else lines
  {
    var f := NextFrame(reader);
    if f.None? {
      return [], false;
    }
    lines := PrintTask(f.value.kind, f.value.payload);
    more := true;
  }

  method PrintTasks(reader: BinaryReader, count: nat) returns (out: seq<Line>)
    requires reader.Valid()
    modifies reader
    ensures out == TaskLoop(old(reader.Rest()), count)
  {
    hide ReadFrame, TaskLines;
    out := [];
    for i := 0 to count
      invariant reader.Valid()
      invariant out + TaskLoop(reader.Rest(), count - i) == TaskLoop(old(reader.Rest()), count)
    {
      ghost var left := TaskLoop(reader.Rest(), count - i);
      var lines, more := PrintNext(reader, count - i);
      assert out + left == out + lines + (if more then TaskLoop(reader.Rest(), count - i - 1) else []);
      out := out + lines;
      if !more { return; }
    }
  }

  method PrintTaskResult(payload: seq<Byte>) returns (out: seq<Line>)
    ensures out == Print(payload)
  {
    out := [];
    var reader := new BinaryReader(payload);
    var error := reader.Read(W4);
    if error.None? { return; }
    var request := reader.Read(W2);
    if request.None? { return; }
    var requestId := reader.Read(W8);
    if requestId.None? { return; }
    if AsSigned32(error.value) != 0 {
      return [Failed(request.value, AsSigned64(requestId.value), AsSigned32(error.value))];
    }
    var owner := reader.Read(W8);
    if owner.None? { return; }
    var count := reader.Read(W2);
    if count.None? { return; }
    out := [Header(request.value, AsSigned64(requestId.value), count.value)];
    var lines := PrintTasks(reader, count.value);
    out := out + lines;
  }
}
