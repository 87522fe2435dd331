// The zone server's models and the unit of work that a request records its changes in.
module UnitOfWork {
  import opened Options
  import opened LittleEndian
  import opened TaskStream
  import opened TaskStreamLaws
  import opened Delivery
  import opened UnitOfWorkSpec
  import opened Receivers

  // uint64_t.
  type Unsigned64 = n: nat | n < 2 * TWO_63

  const C2Z_MAIL_ADD: nat := 4
  const C2Z_MAIL_DEL: nat := 5
  const C2Z_MAIL_BUY: nat := 6

  // The outcome of a signed 64-bit operation with the given exact result. C++ leaves overflow
  // undefined, so nothing is known then.
  method Result64(exact: int) returns (r: Signed64)
    ensures Int64(exact) ==> r == exact
  {
    r := *;
    if Int64(exact) {
      r := exact;
    }
  }

  class UnitOfWork {
    const request: nat        // the packet that asked for it, 0 for none
    const requestId: Signed64
    var tasks: seq<Task>
    var error: ErrorCode

    constructor (request: nat, requestId: Signed64)
      ensures tasks == [] && error == Success && this.request == request && this.requestId == requestId
    {
      this.request, this.requestId := request, requestId;
      tasks, error := [], Success;
    }

    method AddTask(t: Task)
      modifies this`tasks
      ensures tasks == old(tasks) + [t]
    {
      tasks := tasks + [t];
    }

    // The first failure is the cause; later ones are kept out.
    method SetError(e: ErrorCode)
      modifies this`error
      ensures error == if old(error) == Success then e else old(error)
    {
      if error == Success {
        error := e;
      }
    }
  }

  method AnyOf<T>(ids: set<T>) returns (id: T)
    requires ids != {}
    ensures id in ids
  {
    id :| id in ids;
  }

  // Later mails with the same id replace earlier ones.
  function LoadedMails(initial: seq<MailInfo>): map<int, MailInfo> {
    if initial == [] then map[]
    else
      var last := initial[|initial| - 1];
      LoadedMails(initial[..|initial| - 1])[last.mailId := last]
  }

  // Under every id that was loaded the last mail loaded under it is found.
  lemma {:induction false} LoadedMailIsTheLast(initial: seq<MailInfo>, i: nat)
    requires i < |initial| && LastWithId(initial, i)
    ensures initial[i].mailId in LoadedMails(initial) && LoadedMails(initial)[initial[i].mailId] == initial[i]
    decreases |initial|
  {
    var n := |initial| - 1;
    if i < n {
      assert initial[n].mailId != initial[i].mailId;
      LoadedMailIsTheLast(initial[..n], i);
    }
  }

  // And nothing is found that was not loaded.
  lemma {:induction false} FoundMailWasLoaded(initial: seq<MailInfo>, id: int)
    requires id in LoadedMails(initial)
    ensures LoadedMails(initial)[id] in initial && LoadedMails(initial)[id].mailId == id
    decreases |initial|
  {
    var n := |initial| - 1;
    if initial[n].mailId != id {
      FoundMailWasLoaded(initial[..n], id);
      assert initial == initial[..n] + [initial[n]];
    }
  }

  predicate LastWithId(initial: seq<MailInfo>, i: nat)
    requires i < |initial|
  {
    forall j :: i < j < |initial| ==> initial[j].mailId != initial[i].mailId
  }

  class MailModel {
    var mails: map<int, MailInfo>
    var nextExpireUt: int

    ghost predicate Valid()
      reads this
    {
      MailsOk(mails) && IsNextExpire(mails, nextExpireUt)
    }

    constructor (initial: seq<MailInfo>)
      requires forall i :: 0 <= i < |initial| ==> MailInRange(initial[i])
      ensures Valid()
      ensures mails == LoadedMails(initial)
    {
      mails, nextExpireUt := map[], NO_EXPIRE;
      new;
      for i := 0 to |initial|
        invariant MailsOk(mails)
        invariant mails == LoadedMails(initial[..i])
      {
        assert initial[..i + 1][..i] == initial[..i];
        mails := mails[initial[i].mailId := initial[i]];
      }
      assert initial[..|initial|] == initial;
      RecomputeNextExpireUt();
    }

    method RecomputeNextExpireUt()
      requires MailsOk(mails)
      modifies this`nextExpireUt
      ensures Valid()
    {
      nextExpireUt := NO_EXPIRE;
      var rest := mails.Keys;
      while rest != {}
        invariant rest <= mails.Keys && nextExpireUt <= NO_EXPIRE
        invariant forall id :: id in mails && id !in rest ==> nextExpireUt <= mails[id].endUt
        invariant nextExpireUt == NO_EXPIRE || exists id :: id in mails && mails[id].endUt == nextExpireUt
      {
        var id := AnyOf(rest);
        nextExpireUt := if mails[id].endUt < nextExpireUt then mails[id].endUt else nextExpireUt;
        rest := rest - {id};
      }
    }

    // The mailbox limit is checked here only, so undoing a removal can never run into it.
    method Add(m: MailInfo, newId: Signed64, uow: UnitOfWork) returns (e: ErrorCode)
      requires Valid() && MailInRange(m)
      modifies this, uow`tasks
      ensures Valid()
      ensures e == if |old(mails)| >= MAX_MAIL_COUNT then MailBoxFull
                   else if newId in old(mails) then MailAlreadyExists else Success
      ensures e == Success ==>
                && mails == old(mails)[newId := m.(mailId := newId)]
                && uow.tasks == old(uow.tasks) + [AddMail(m.(mailId := newId), NO_MAIL)]
      ensures e != Success ==> mails == old(mails) && uow.tasks == old(uow.tasks)
    {
      if |mails| >= MAX_MAIL_COUNT {
        return MailBoxFull;
      }
      if newId in mails {
        return MailAlreadyExists;
      }
      e := Insert(m.(mailId := newId), uow);
    }

    method Insert(m: MailInfo, uow: UnitOfWork) returns (e: ErrorCode)
      requires Valid() && MailInRange(m)
      modifies this, uow`tasks
      ensures Valid()
      ensures e == if m.mailId in old(mails) then MailAlreadyExists else Success
      ensures e == Success ==>
                mails == old(mails)[m.mailId := m] && uow.tasks == old(uow.tasks) + [AddMail(m, NO_MAIL)]
      ensures e != Success ==> mails == old(mails) && uow.tasks == old(uow.tasks)
    {
      if m.mailId in mails {
        return MailAlreadyExists;
      }
      ghost var before := mails;
      mails := mails[m.mailId := m];
      InsertKeepsNextExpire(before, nextExpireUt, m);
      nextExpireUt := if m.endUt < nextExpireUt then m.endUt else nextExpireUt;
      uow.AddTask(AddMail(m, NO_MAIL));
      return Success;
    }

    method Remove(mailId: int, uow: UnitOfWork) returns (e: ErrorCode)
      requires Valid()
      modifies this, uow`tasks
      ensures Valid()
      ensures e == if mailId in old(mails) then Success else MailNotFound
      ensures e == Success ==>
                && mails == old(mails) - {mailId}
                && uow.tasks == old(uow.tasks) + [RemoveMail(NO_MAIL, old(mails)[mailId])]
      ensures e != Success ==> mails == old(mails) && uow.tasks == old(uow.tasks)
    {
      if mailId !in mails {
        return MailNotFound;
      }
      var removed := mails[mailId];
      ghost var before := mails;
      mails := mails - {mailId};
      if removed.endUt <= nextExpireUt {
        RecomputeNextExpireUt();
      } else {
        RemoveKeepsNextExpire(before, nextExpireUt, mailId);
      }
      uow.AddTask(RemoveMail(NO_MAIL, removed));
      return Success;
    }

    predicate HasExpired(nowUt: int)
      reads this
    {
      nowUt >= nextExpireUt
    }

    // The expired ids, in whatever order the map yields them.
    method TakeExpiredMailIds(nowUt: int) returns (ids: seq<int>)
      ensures forall id :: id in ids <==> id in mails && mails[id].endUt <= nowUt
      ensures Distinct(ids)
    {
      ids := [];
      var rest := mails.Keys;
      while rest != {}
        invariant rest <= mails.Keys
        invariant forall id :: id in ids <==> id in mails && id !in rest && mails[id].endUt <= nowUt
        invariant Distinct(ids)
      {
        var id := AnyOf(rest);
        rest := rest - {id};
        if mails[id].endUt <= nowUt {
          ids := ids + [id];
        }
      }
    }
  }

  lemma InsertKeepsNextExpire(mails: map<int, MailInfo>, next: int, m: MailInfo)
    requires MailsOk(mails) && IsNextExpire(mails, next) && m.mailId !in mails && m.endUt <= NO_EXPIRE
    ensures IsNextExpire(mails[m.mailId := m], if m.endUt < next then m.endUt else next)
  {
    var mails' := mails[m.mailId := m];
    if m.endUt < next {
      assert mails'[m.mailId].endUt == m.endUt;
    } else if next != NO_EXPIRE {
      var id :| id in mails && mails[id].endUt == next;
      assert mails'[id].endUt == next;
    }
  }

  lemma RemoveKeepsNextExpire(mails: map<int, MailInfo>, next: int, mailId: int)
    requires MailsOk(mails) && IsNextExpire(mails, next) && mailId in mails && mails[mailId].endUt > next
    ensures IsNextExpire(mails - {mailId}, next)
  {
    if next != NO_EXPIRE {
      var id :| id in mails && mails[id].endUt == next;
      assert id in mails - {mailId} && (mails - {mailId})[id].endUt == next;
    }
  }

  function Unexpired(mails: map<int, MailInfo>, nowUt: int): map<int, MailInfo> {
    map id | id in mails && mails[id].endUt > nowUt :: mails[id]
  }

  lemma NoneExpired(mails: map<int, MailInfo>, next: int, nowUt: int)
    requires IsNextExpire(mails, next) && nowUt < next
    ensures Unexpired(mails, nowUt) == mails
  {
    assert forall id :: id in mails ==> mails[id].endUt > nowUt;
    assert Unexpired(mails, nowUt).Keys == mails.Keys;
  }

  lemma TakenAreExpired(mails: map<int, MailInfo>, nowUt: int, ids: seq<int>)
    requires forall id :: id in ids <==> id in mails && mails[id].endUt <= nowUt
    ensures mails - (set k | 0 <= k < |ids| :: ids[k]) == Unexpired(mails, nowUt)
    ensures ids == [] <==> Unexpired(mails, nowUt) == mails
  {
    var taken := set k | 0 <= k < |ids| :: ids[k];
    assert forall id :: id in taken <==> id in mails && mails[id].endUt <= nowUt;
    assert (mails - taken).Keys == Unexpired(mails, nowUt).Keys;
    if ids != [] {
      assert ids[0] in mails && ids[0] !in Unexpired(mails, nowUt);
    }
  }

  // Entries of unknown kinds are dropped; the last entry for gold wins.
  function LoadedGold(entries: seq<(Byte, Signed64)>): Signed64 {
    if entries == [] then 0
    else if entries[|entries| - 1].0 == GOLD then entries[|entries| - 1].1
    else LoadedGold(entries[..|entries| - 1])
  }

  // The loaded balance is the amount of the last entry for gold, and 0 without one.
  lemma {:induction false} LoadedGoldIsTheLast(entries: seq<(Byte, Signed64)>)
    ensures (forall i :: 0 <= i < |entries| ==> entries[i].0 != GOLD) ==> LoadedGold(entries) == 0
    ensures forall i :: 0 <= i < |entries| && entries[i].0 == GOLD &&
                        (forall j :: i < j < |entries| ==> entries[j].0 != GOLD) ==>
              LoadedGold(entries) == entries[i].1
    decreases |entries|
  {
    if entries != [] {
      var n := |entries| - 1;
      LoadedGoldIsTheLast(entries[..n]);
      assert forall i :: 0 <= i < n ==> entries[..n][i] == entries[i];
    }
  }

  class CurrencyModel {
    var gold: Signed64

    constructor (initial: seq<(Byte, Signed64)>)
      ensures gold == LoadedGold(initial)
    {
      gold := 0;
      new;
      for i := 0 to |initial|
        invariant gold == LoadedGold(initial[..i])
      {
        assert initial[..i + 1][..i] == initial[..i];
        if initial[i].0 == GOLD {
          gold := initial[i].1;
        }
      }
      assert initial[..|initial|] == initial;
    }

    method Increase(kind: Byte, amount: Signed64, uow: UnitOfWork) returns (e: ErrorCode)
      modifies this, uow`tasks
      ensures amount < 0 ==> e == InvalidCurrencyAmount
      ensures amount >= 0 && kind != GOLD ==> e == UnknownCurrencyType
      ensures amount >= 0 && kind == GOLD && Int64(old(gold) + amount) ==>
                e == if old(gold) + amount < 0 then NotEnoughCurrency else Success
      ensures if e == Success then gold >= 0 && (Int64(old(gold) + amount) ==> gold == old(gold) + amount)
              else gold == old(gold)
      ensures uow.tasks == old(uow.tasks) + if gold == old(gold) then [] else [UpdateCurrency(kind, gold, old(gold))]
    {
      if amount < 0 {
        return InvalidCurrencyAmount;
      }
      if kind != GOLD {
        return UnknownCurrencyType;
      }
      var value := Result64(gold as int + amount as int);
      e := SetTracked(kind, value, uow);
    }

    // Nothing is taken unless all of it can be.
    method Decrease(kind: Byte, amount: Signed64, uow: UnitOfWork) returns (e: ErrorCode)
      modifies this, uow`tasks
      ensures amount < 0 ==> e == InvalidCurrencyAmount
      ensures amount >= 0 && kind != GOLD ==> e == UnknownCurrencyType
      ensures amount >= 0 && kind == GOLD && Int64(old(gold) - amount) ==>
                e == if old(gold) - amount < 0 then NotEnoughCurrency else Success
      ensures if e == Success then gold >= 0 && (Int64(old(gold) - amount) ==> gold == old(gold) - amount)
              else gold == old(gold)
      ensures uow.tasks == old(uow.tasks) + if gold == old(gold) then [] else [UpdateCurrency(kind, gold, old(gold))]
    {
      if amount < 0 {
        return InvalidCurrencyAmount;
      }
      if kind != GOLD {
        return UnknownCurrencyType;
      }
      var value := Result64(gold as int - amount as int);
      e := SetTracked(kind, value, uow);
    }

    // The only way a balance changes: check, remember the old value, change, record.
    method SetTracked(kind: Byte, value: Signed64, uow: UnitOfWork) returns (e: ErrorCode)
      modifies this, uow`tasks
      ensures e == if kind != GOLD then UnknownCurrencyType else if value < 0 then NotEnoughCurrency else Success
      ensures gold == if e == Success then value else old(gold)
      ensures uow.tasks == old(uow.tasks) + if gold == old(gold) then [] else [UpdateCurrency(kind, gold, old(gold))]
    {
      if kind != GOLD {
        return UnknownCurrencyType;
      }
      if value < 0 {
        return NotEnoughCurrency;
      }
      var previous := gold;
      if value == previous {
        return Success;
      }
      gold := value;
      uow.AddTask(UpdateCurrency(kind, value, previous));
      return Success;
    }
  }

  // The mail a client asked for, under the id it was given. When its life span overflows, nothing
  // is known of its expiry but the range.
  predicate IsNewMail(m: MailInfo, title: seq<Byte>, body: seq<Byte>, now: int, duration: int, newId: int) {
    && m == MailInfo(newId, title, body, now, m.endUt)
    && Int64(m.endUt) && (Int64(now + duration) ==> m.endUt == now + duration)
  }

  method MakeMailInfo(title: seq<Byte>, body: seq<Byte>, now: Signed64, duration: Signed64) returns (m: MailInfo)
    ensures IsNewMail(m, title, body, now, duration, 0) && MailInRange(m)
  {
    var endUt := Result64(now as int + duration as int);
    return MailInfo(0, title, body, now, endUt);
  }

  lemma RemovalsMore(mails: map<int, MailInfo>, ids: seq<int>, i: nat)
    requires i < |ids| && forall k :: 0 <= k < |ids| ==> ids[k] in mails
    ensures Removals(mails, ids[..i + 1]) == Removals(mails, ids[..i]) + [Task.RemoveMail(NO_MAIL, mails[ids[i]])]
  {
  }

  lemma NothingRecorded()
    ensures AllInRange([])
  {
  }

  // What buying a mail records: the mail, and the payment unless it is free.
  function BuyTasks(m: MailInfo, price: int, gold: int): seq<Task> {
    [Task.AddMail(m, NO_MAIL)] + if price == 0 then [] else [UpdateCurrency(GOLD, gold - price, gold)]
  }

  // A request that adds a mail always fits its packet.
  lemma BuyFits(m: MailInfo, price: int, gold: int)
    requires !TextTooLong(m.title, m.body)
    ensures Fits(CLIENT_OVERHEAD, BuyTasks(m, price, gold))
  {
    var tasks := BuyTasks(m, price, gold);
    assert StreamBytes(tasks) == TaskBytes(tasks[0]) + StreamBytes(tasks[1..]);
    if price != 0 {
      assert tasks[1..] == [UpdateCurrency(GOLD, gold - price, gold)] && tasks[1..][1..] == [];
    } else {
      assert tasks[1..] == [];
    }
  }

  // The client is told of a purchase exactly what happened: the new mail and both balances.
  lemma BuyIsReported(m: MailInfo, price: int, gold: int, client: nat, request: nat, requestId: int, owner: nat)
    requires !TextTooLong(m.title, m.body) && MailInRange(m) && 0 <= price <= gold && Int64(gold)
    requires client < 2 * TWO_63 && request < 0x1_0000 && Int64(requestId) && owner < 2 * TWO_63
    ensures var tasks := BuyTasks(m, price, gold);
            && (forall i :: 0 <= i < |tasks| ==> TaskInRange(tasks[i]))
            && ClientPrints(client, ToClient(client, request, requestId, owner, tasks)) ==
               [Header(request, requestId, |tasks|), Mail(true, m.mailId, m.title)] +
               if price == 0 then [] else [Currency(GOLD, gold, gold - price)]
  {
    hide ClientPrints, ToClient, Fits;
    BuyFits(m, price, gold);
    CommitRoundTrip(client, request, requestId, owner, BuyTasks(m, price, gold));
  }

  // A mail went in, for a price, and that is all that happened and was committed.
  predicate Delivered(s: PlayerState, s': PlayerState, tasks: seq<Task>, price: int, title: seq<Byte>, body: seq<Byte>,
                      now: int, duration: int, newId: int)
  {
    && tasks != [] && tasks[0].AddMail?
    && var m := tasks[0].newInfo;
    && IsNewMail(m, title, body, now, duration, newId)
    && s' == PlayerState(s.mails[newId := m], s.gold - price)
    && tasks == BuyTasks(m, price, s.gold)
  }

  // Why a mail is refused, if it is.
  function AddError(hasBox: bool, s: PlayerState, title: seq<Byte>, body: seq<Byte>, newId: int): ErrorCode {
    if !hasBox then MailBoxNotFound
    else if TextTooLong(title, body) then MailTextTooLong
    else if |s.mails| >= MAX_MAIL_COUNT then MailBoxFull
    else if newId in s.mails then MailAlreadyExists
    else Success
  }

  function BuyError(hasBox: bool, s: PlayerState, title: seq<Byte>, body: seq<Byte>, newId: int,
                    price: int): ErrorCode {
    if AddError(hasBox, s, title, body, newId) != Success then AddError(hasBox, s, title, body, newId)
    else if price < 0 then InvalidCurrencyAmount
    else if s.gold < price then NotEnoughCurrency
    else Success
  }

  // The values of EErrorCode.
  function Code(e: ErrorCode): (code: int)
    ensures Int32(code) && (code == 0 <==> e == Success)
  {
    match e
    case Success => 0
    case MailNotFound => 100
    case MailAlreadyExists => 101
    case MailBoxNotFound => 102
    case MailBoxFull => 103
    case MailTextTooLong => 104
    case NotEnoughCurrency => 200
    case UnknownCurrencyType => 201
    case InvalidCurrencyAmount => 202
  }

  // The error a number stands for, as those who receive it have it.
  function ErrorOf(code: int): Option<ErrorCode> {
    if code == 0 then Some(Success)
    else if code == 100 then Some(MailNotFound)
    else if code == 101 then Some(MailAlreadyExists)
    else if code == 102 then Some(MailBoxNotFound)
    else if code == 103 then Some(MailBoxFull)
    else if code == 104 then Some(MailTextTooLong)
    else if code == 200 then Some(NotEnoughCurrency)
    else if code == 201 then Some(UnknownCurrencyType)
    else if code == 202 then Some(InvalidCurrencyAmount)
    else None
  }

  // Every error is recognised by its number, and no other error is.
  lemma CodesTellErrorsApart(e: ErrorCode, code: int)
    ensures code == Code(e) <==> ErrorOf(code) == Some(e)
  {
  }

  // A request that adds is refused for the first of the things wrong with it, and only then.
  lemma WhyAnAddIsRefused(hasBox: bool, s: PlayerState, title: seq<Byte>, body: seq<Byte>, newId: int)
    ensures var e := AddError(hasBox, s, title, body, newId);
            var long := |title| > 128 || |body| > 1024;
            && (e == MailBoxNotFound <==> !hasBox)
            && (e == MailTextTooLong <==> hasBox && long)
            && (e == MailBoxFull <==> hasBox && !long && |s.mails| >= 100)
            && (e == MailAlreadyExists <==> hasBox && !long && |s.mails| < 100 && newId in s.mails)
            && (e == Success <==> hasBox && !long && |s.mails| < 100 && newId !in s.mails)
  {
  }

  // A purchase is refused for what an addition is refused for, and otherwise for its price alone.
  lemma WhyAPurchaseIsRefused(hasBox: bool, s: PlayerState, title: seq<Byte>, body: seq<Byte>, newId: int, price: int)
    ensures var e, added := BuyError(hasBox, s, title, body, newId, price), AddError(hasBox, s, title, body, newId);
            && (added != Success ==> e == added)
            && (e == InvalidCurrencyAmount <==> added == Success && price < 0)
            && (e == NotEnoughCurrency <==> added == Success && price > s.gold && price >= 0)
            && (e == Success <==> added == Success && 0 <= price <= s.gold)
  {
  }

  // A new mail is what was asked for, sent now; and a tick finds it expired from the end of its life
  // span on, and not before.
  lemma NewMailLivesItsSpan(s: PlayerState, m: MailInfo, title: seq<Byte>, body: seq<Byte>, now: int, duration: int,
                            newId: int, nowUt: int)
    requires IsNewMail(m, title, body, now, duration, newId) && Int64(now + duration)
    ensures m.title == title && m.body == body && m.sendUt == now && m.mailId == newId
    ensures newId in Expired(s.mails[newId := m], nowUt) <==> nowUt >= now + duration
    ensures newId in Unexpired(s.mails[newId := m], nowUt) <==> nowUt < now + duration
  {
  }

  predicate AllInRange(tasks: seq<Task>) {
    forall i :: 0 <= i < |tasks| ==> TaskInRange(tasks[i])
  }

  predicate OnlyCurrency(tasks: seq<Task>) {
    forall i :: 0 <= i < |tasks| ==> tasks[i].UpdateCurrency?
  }

  // The owner of a unit of work, as the unsigned number it is written as.
  function OwnerOf(unit: Signed64): (owner: nat)
    ensures owner < 2 * TWO_63
  {
    assert Int64(unit);
    ToUnsigned(unit, TWO_63)
  }

  // What leaves the zone server at the end of a unit of work: a commit goes to the world server and to
  // the client, a failure to the client, and a body over the limit nowhere.
  function Packets(unit: Signed64, client: nat, request: nat, requestId: Signed64, o: Outcome): seq<Packet>
    requires AllInRange(TasksOf(o))
  {
    var owner := OwnerOf(unit);
    match o
    case Unchanged => []
    case RolledBack(e) =>
      Kept(FailureToClient(client, request, requestId, Code(e)))
    case Committed(tasks) =>
      Kept(ToWorld(unit, requestId, owner, tasks)) + Kept(ToClient(client, request, requestId, owner, tasks))
  }

  lemma NothingLeaves(unit: Signed64, client: nat, request: nat, requestId: Signed64)
    ensures Packets(unit, client, request, requestId, Unchanged) == []
  {
  }

  // What the two receivers make of all that leaves. The world server ends up with the commit's tasks
  // applied if they fit, the client with their effect on its mails if they fit; and the client prints
  // the failure, or the changes that fit.
  lemma ReceiversFollow(unit: Signed64, client: Unsigned64, request: nat, requestId: Signed64, o: Outcome,
                        w: PlayerState, c: PlayerState)
    requires AllInRange(TasksOf(o)) && request < 0x1_0000
    requires forall i :: 0 <= i < |TasksOf(o)| ==> OfGold(TasksOf(o)[i])
    requires o.RolledBack? ==> o.error != Success
    ensures var ps := Packets(unit, client, request, requestId, o);
            && WorldAfterAll(w, ps) == Follow(WORLD_OVERHEAD, w, o)
            && ClientAfterAll(client, c, ps) == MailsOnly(c, Follow(CLIENT_OVERHEAD, c, o))
            && (o.Unchanged? ==> ClientPrintsAll(client, ps) == [])
            && (o.RolledBack? ==> ClientPrintsAll(client, ps) == [Failed(request, requestId, Code(o.error))])
            && (o.Committed? ==>
                  (ClientPrintsAll(client, ps) == [Header(request, requestId, |o.tasks|)] + Lines(o.tasks)
                   <==> Fits(CLIENT_OVERHEAD, o.tasks)))
  {
    hide WorldAfter, ClientAfter, ClientPrints, ToWorld, ToClient, FailureToClient, Kept, Fits, Replay, Lines;
    match o {
      case Unchanged =>
      case RolledBack(e) =>
        var p := FailureToClient(client, request, requestId, Code(e));
        FailureArrives(client, c, request, requestId, Code(e));
        AfterKept(client, w, p);
        AfterKept(client, c, p);
        FailureIsRelayed(client, request, requestId, Code(e));
        NotMine(client, w, p);
      case Committed(tasks) =>
        var owner := OwnerOf(unit);
        var p, q := ToWorld(unit, requestId, owner, tasks), ToClient(client, request, requestId, owner, tasks);
        CommitIds(unit, client, request, requestId, owner, tasks);
        WorldFollows(w, unit, requestId, owner, tasks);
        ClientFollows(client, c, request, requestId, owner, tasks);
        CommitRoundTrip(client, request, requestId, owner, tasks);
        TwoPackets(client, w, p, q);
        TwoPackets(client, c, p, q);
    }
  }

  lemma FailureIsRelayed(client: nat, request: nat, requestId: Signed64, code: int)
    requires Int32(code)
    ensures FailureToClient(client, request, requestId, code).id == Z2W_RELAY
  {
  }

  lemma CommitIds(unit: Signed64, client: nat, request: nat, requestId: Signed64, owner: nat, tasks: seq<Task>)
    requires AllInRange(tasks)
    ensures ToWorld(unit, requestId, owner, tasks).id == Z2W_UNIT_OF_WORK_STREAM
    ensures ToClient(client, request, requestId, owner, tasks).id == Z2W_RELAY
  {
  }

  // One packet for each receiver.
  lemma TwoPackets(client: nat, r: PlayerState, toWorld: Packet, toClient: Packet)
    requires toWorld.id == Z2W_UNIT_OF_WORK_STREAM && toClient.id == Z2W_RELAY
    ensures var ps := Kept(toWorld) + Kept(toClient);
            && WorldAfterAll(r, ps) == WorldAfter(r, toWorld)
            && ClientAfterAll(client, r, ps) == ClientAfter(client, r, toClient)
            && ClientPrintsAll(client, ps) == ClientPrints(client, toClient)
  {
    hide WorldAfter, ClientAfter, ClientPrints, Kept;
    AfterConcat(client, r, Kept(toWorld), Kept(toClient));
    AfterKept(client, r, toWorld);
    AfterKept(client, r, toClient);
    NotMine(client, r, toWorld);
    AfterKept(client, WorldAfter(r, toWorld), toClient);
    NotMine(client, WorldAfter(r, toWorld), toClient);
  }

  // A failure always arrives. A commit arrives at both, at the world server only, or nowhere.
  lemma WhatLeaves(unit: Signed64, client: nat, request: nat, requestId: Signed64, o: Outcome)
    requires AllInRange(TasksOf(o))
    ensures var ps := Packets(unit, client, request, requestId, o);
            match o
            case Unchanged => ps == []
            case RolledBack(_) => |ps| == 1
            case Committed(tasks) =>
              |ps| == if Fits(CLIENT_OVERHEAD, tasks) then 2 else if Fits(WORLD_OVERHEAD, tasks) then 1 else 0
  {
    if o.Committed? {
      hide ToClient, ToWorld, StreamBytes, TaskInRange;
      ArrivesIffFits(client, unit, request, requestId, OwnerOf(unit), o.tasks);
    }
  }

  // What reaches a player: a packet, with the clock and the ids the server draws for it, or a tick.
  datatype Request =
    | MailAdd(title: seq<Byte>, body: seq<Byte>, now: Signed64, duration: Signed64, newId: Signed64,
              requestId: Signed64)
    | MailDel(mailId: int, requestId: Signed64)
    | MailBuy(title: seq<Byte>, body: seq<Byte>, now: Signed64, duration: Signed64, price: Signed64, newId: Signed64,
              requestId: Signed64)
    | TickAt(nowUt: Signed64, requestId: Signed64)

  class Player {
    const mailBox: MailModel?
    const wallet: CurrencyModel
    const unit: Signed64
    const client: Unsigned64
    const world: Session  // a missing world link counts as closed

    constructor (mailBox: MailModel?, wallet: CurrencyModel, unit: Signed64, client: Unsigned64, world: Session)
      ensures this.mailBox == mailBox && this.wallet == wallet
      ensures this.unit == unit && this.client == client && this.world == world
    {
      this.mailBox, this.wallet, this.unit, this.client, this.world := mailBox, wallet, unit, client, world;
    }

    ghost function View(): PlayerState
      reads mailBox, wallet
    {
      PlayerState(if mailBox == null then map[] else mailBox.mails, wallet.gold)
    }

    ghost predicate BoxOk()
      reads mailBox
    {
      mailBox != null ==> mailBox.Valid()
    }

    // The unit of work lists exactly the changes made since the player looked like `start`.
    ghost predicate Records(start: PlayerState, uow: UnitOfWork)
      reads mailBox, wallet, uow`tasks
    {
      && BoxOk() && AllApply(start, uow.tasks) && View() == Replay(start, uow.tasks)
      && AllInRange(uow.tasks) && (mailBox == null ==> OnlyCurrency(uow.tasks))
    }

    // What the world link takes at the end of a unit of work.
    ghost function Outgoing(request: nat, requestId: Signed64, o: Outcome): seq<Packet>
      requires AllInRange(TasksOf(o))
      reads world
    {
      if world.closed then [] else Packets(unit, client, request, requestId, o)
    }

    // RollbackUoW: the tasks in reverse, each by the opposite model operation, whose own records
    // go to a unit of work that is thrown away.
    method RollbackUoW(tasks: seq<Task>)
      requires BoxOk() && AllInRange(tasks) && (mailBox == null ==> OnlyCurrency(tasks))
      modifies mailBox, wallet
      ensures BoxOk() && View() == Rollback(old(View()), tasks)
    {
      var sink := new UnitOfWork(0, 0);
      var n := |tasks|;
      assert tasks[..n] == tasks;
      while n > 0
        invariant 0 <= n <= |tasks| && BoxOk() && fresh(sink)
        invariant Rollback(View(), tasks[..n]) == Rollback(old(View()), tasks)
      {
        n := n - 1;
        assert tasks[..n + 1][..n] == tasks[..n];
        UndoTask(tasks[n], sink);
      }
    }

    method UndoTask(t: Task, sink: UnitOfWork)
      requires BoxOk() && TaskInRange(t)
      modifies mailBox, wallet, sink`tasks
      ensures BoxOk()
      ensures View() == if mailBox == null && !t.UpdateCurrency? then old(View()) else Undo(old(View()), t)
    {
      match t {
        case AddMail(m, _) =>
          if mailBox == null { return; }
          var e := mailBox.Remove(m.mailId, sink);
          assert e != Success ==> mailBox.mails - {m.mailId} == mailBox.mails;
        case RemoveMail(_, m) =>
          if mailBox == null { return; }
          var e := mailBox.Insert(m, sink);
        case UpdateCurrency(kind, _, p) =>
          var e := wallet.SetTracked(kind, p, sink);
      }
    }

    // The destructor of ZoneUnitOfWork: undo and report the error, or send what was recorded.
    method Finish(uow: UnitOfWork, ghost start: PlayerState) returns (o: Outcome)
      requires Records(start, uow) && (uow.error == Success && uow.tasks != [] ==> View() != start)
      modifies mailBox, wallet, world`queue, uow`tasks
      ensures BoxOk() && AllInRange(TasksOf(o))
      ensures uow.error == Success ==>
                && o == (if old(uow.tasks) == [] then Unchanged else Committed(old(uow.tasks)))
                && View() == old(View()) && Served(start, o, View())
      ensures uow.error != Success ==>
                && o == RolledBack(uow.error)
                && (View() == start <==> start.gold >= 0 || !ChangesCurrency(old(uow.tasks)))
      ensures world.queue == old(world.queue) + Outgoing(uow.request, uow.requestId, o)
    {
      hide Packets;
      if uow.error != Success {
        RollbackRestores(start, uow.tasks);
        RollbackUoW(uow.tasks);
        uow.tasks := [];
        SendFailure(uow.request, uow.requestId, uow.error);
        return RolledBack(uow.error);
      }
      if uow.tasks == [] {
        NothingLeaves(unit, client, uow.request, uow.requestId);
        return Unchanged;
      }
      SendCommit(uow.request, uow.requestId, uow.tasks);
      return Committed(uow.tasks);
    }

    method SendFailure(request: nat, requestId: Signed64, error: ErrorCode)
      modifies world`queue
      ensures world.queue == old(world.queue) + Outgoing(request, requestId, RolledBack(error))
    {
      var result := Write32(Code(error)) + (Encode(request, Bytes(W2)) + Write64(requestId));
      world.SendPacket(Z2W_RELAY, Relay(client, Z2C_TASK_RESULT, result));
    }

    // The stream is serialised once and goes out in both packets.
    method SendCommit(request: nat, requestId: Signed64, tasks: seq<Task>)
      requires AllInRange(tasks)
      modifies world`queue
      ensures world.queue == old(world.queue) + Outgoing(request, requestId, Committed(tasks))
    {
      var owner := OwnerOf(unit);
      var toWorld := ToWorld(unit, requestId, owner, tasks);
      var toClient := ToClient(client, request, requestId, owner, tasks);
      world.SendPacket(toWorld.id, toWorld.body);
      world.SendPacket(toClient.id, toClient.body);
    }

    // One successful model operation on top of what is recorded.
    lemma RecordsMore(start: PlayerState, before: PlayerState, tasks: seq<Task>, t: Task, uow: UnitOfWork)
      requires AllApply(start, tasks) && before == Replay(start, tasks) && AllInRange(tasks)
      requires mailBox == null ==> OnlyCurrency(tasks + [t])
      requires Applies(before, t) && View() == Do(before, t) && BoxOk()
      requires TaskInRange(t)
      requires uow.tasks == tasks + [t]
      ensures Records(start, uow)
    {
      RecordMore(start, tasks, t);
    }

    lemma StartRecords(start: PlayerState, uow: UnitOfWork)
      requires BoxOk() && start == View() && uow.tasks == []
      ensures Records(start, uow)
    {
    }

    method AddMail(m: MailInfo, newId: Signed64, uow: UnitOfWork, ghost start: PlayerState) returns (e: ErrorCode)
      requires mailBox != null && Records(start, uow) && MailInRange(m)
      modifies mailBox, uow`tasks
      ensures Records(start, uow)
      ensures e == if |old(View()).mails| >= MAX_MAIL_COUNT then MailBoxFull
                   else if newId in old(View()).mails then MailAlreadyExists else Success
      ensures View() == if e == Success
                        then old(View()).(mails := old(View()).mails[newId := m.(mailId := newId)]) else old(View())
      ensures uow.tasks == old(uow.tasks) + if e == Success then [Task.AddMail(m.(mailId := newId), NO_MAIL)] else []
    {
      ghost var before, tasks := View(), uow.tasks;
      e := mailBox.Add(m, newId, uow);
      if e == Success {
        RecordsMore(start, before, tasks, Task.AddMail(m.(mailId := newId), NO_MAIL), uow);
      }
    }

    method RemoveMail(mailId: int, uow: UnitOfWork, ghost start: PlayerState) returns (e: ErrorCode)
      requires mailBox != null && Records(start, uow)
      modifies mailBox, uow`tasks
      ensures Records(start, uow)
      ensures e == if mailId in old(View()).mails then Success else MailNotFound
      ensures View() == if e == Success then old(View()).(mails := old(View()).mails - {mailId}) else old(View())
      ensures uow.tasks == old(uow.tasks) +
                           if e == Success then [Task.RemoveMail(NO_MAIL, old(View()).mails[mailId])] else []
    {
      ghost var before, tasks := View(), uow.tasks;
      e := mailBox.Remove(mailId, uow);
      if e == Success {
        RecordsMore(start, before, tasks, Task.RemoveMail(NO_MAIL, before.mails[mailId]), uow);
      }
    }

    // From a non-negative balance the subtraction cannot overflow.
    method SpendGold(amount: Signed64, uow: UnitOfWork, ghost start: PlayerState) returns (e: ErrorCode)
      requires Records(start, uow) && wallet.gold >= 0
      modifies wallet, uow`tasks
      ensures Records(start, uow)
      ensures e == if amount < 0 then InvalidCurrencyAmount
                   else if old(View()).gold < amount then NotEnoughCurrency else Success
      ensures View() == if e == Success then old(View()).(gold := old(View()).gold - amount) else old(View())
      ensures uow.tasks == old(uow.tasks) +
                           if e != Success || amount == 0 then []
                           else [UpdateCurrency(GOLD, old(View()).gold - amount, old(View()).gold)]
    {
      ghost var before, tasks := View(), uow.tasks;
      assert Int64(wallet.gold) && Int64(amount);
      assert amount >= 0 ==> Int64(wallet.gold as int - amount as int);
      e := wallet.Decrease(GOLD, amount, uow);
      if wallet.gold != before.gold {
        RecordsMore(start, before, tasks, UpdateCurrency(GOLD, wallet.gold, before.gold), uow);
      } else {
        assert uow.tasks == tasks;
      }
    }

    // ---- Requests. ----

    // What adding and buying have in common: the checks, and the mail put in. A refusal is noted in
    // the unit of work.
    method TryAdd(title: seq<Byte>, body: seq<Byte>, now: Signed64, duration: Signed64, newId: Signed64,
                  uow: UnitOfWork, ghost start: PlayerState)
      requires BoxOk() && start == View() && uow.tasks == [] && uow.error == Success
      modifies mailBox, uow
      ensures Records(start, uow) && uow.error == AddError(mailBox != null, start, title, body, newId)
      ensures uow.error != Success ==> View() == start && uow.tasks == []
      ensures uow.error == Success ==>
                && |uow.tasks| == 1 && uow.tasks[0].AddMail?
                && var m := uow.tasks[0].newInfo;
                && IsNewMail(m, title, body, now, duration, newId)
                && View() == start.(mails := start.mails[newId := m]) && uow.tasks == [Task.AddMail(m, NO_MAIL)]
    {
      hide AllApply, Replay, AllInRange, Records, TextTooLong;
      StartRecords(start, uow);
      if mailBox == null {
        uow.SetError(MailBoxNotFound);
      } else if TextTooLong(title, body) {
        uow.SetError(MailTextTooLong);
      } else {
        var m := MakeMailInfo(title, body, now, duration);
        var e := AddMail(m, newId, uow, start);
        if e != Success {
          uow.SetError(e);
        }
      }
    }

    method HandleMailAdd(title: seq<Byte>, body: seq<Byte>, now: Signed64, duration: Signed64, newId: Signed64,
                         requestId: Signed64)
      returns (o: Outcome)
      requires BoxOk()
      modifies mailBox, wallet, world`queue
      ensures BoxOk() && Served(old(View()), o, View()) && AllInRange(TasksOf(o))
      ensures var error := AddError(mailBox != null, old(View()), title, body, newId);
              if error != Success then o == RolledBack(error)
              else o.Committed? && Delivered(old(View()), View(), o.tasks, 0, title, body, now, duration, newId)
      ensures Arrives(CLIENT_OVERHEAD, o)
      ensures world.queue == old(world.queue) + Outgoing(C2Z_MAIL_ADD, requestId, o)
    {
      hide AllApply, Replay, AllInRange, Records, TextTooLong, Fits, Packets;
      ghost var start := View();
      var uow := new UnitOfWork(C2Z_MAIL_ADD, requestId);
      TryAdd(title, body, now, duration, newId, uow, start);
      if uow.error == Success {
        assert newId in View().mails && newId !in start.mails;
        BuyFits(uow.tasks[0].newInfo, 0, start.gold);
      }
      o := Finish(uow, start);
    }

    method HandleMailDel(mailId: int, requestId: Signed64) returns (o: Outcome)
      requires BoxOk()
      modifies mailBox, wallet, world`queue
      ensures BoxOk() && Served(old(View()), o, View()) && AllInRange(TasksOf(o))
      ensures o == if mailBox == null then RolledBack(MailBoxNotFound)
                   else if mailId in old(View()).mails
                   then Committed([Task.RemoveMail(NO_MAIL, old(View()).mails[mailId])]) else RolledBack(MailNotFound)
      ensures View() == old(View()).(mails := old(View()).mails - {mailId})
      // The commit arrives unless the mail's texts are longer than any the database can hold.
      ensures o.Committed? ==>
                var m := old(View()).mails[mailId];
                Fits(CLIENT_OVERHEAD, o.tasks) <==> |m.title| + |m.body| <= MAX_BODY - CLIENT_OVERHEAD - 34
      ensures world.queue == old(world.queue) + Outgoing(C2Z_MAIL_DEL, requestId, o)
    {
      hide AllApply, Replay, AllInRange, Records, Packets;
      ghost var start := View();
      var uow := new UnitOfWork(C2Z_MAIL_DEL, requestId);
      StartRecords(start, uow);
      if mailBox == null {
        uow.SetError(MailBoxNotFound);
      } else {
        var e := RemoveMail(mailId, uow, start);
        if e != Success {
          uow.SetError(e);
        } else {
          assert mailId !in View().mails && mailId in start.mails;
          OneTask(start, Task.RemoveMail(NO_MAIL, start.mails[mailId]));
        }
      }
      o := Finish(uow, start);
    }

    // The mail goes in first and the gold comes off second, so running out of gold means taking the
    // mail back: either both happen or neither does. Balances are loaded non-negative (the database
    // checks that) and every request keeps them so.
    method HandleMailBuy(title: seq<Byte>, body: seq<Byte>, now: Signed64, duration: Signed64, price: Signed64,
                         newId: Signed64, requestId: Signed64)
      returns (o: Outcome)
      requires BoxOk() && wallet.gold >= 0
      modifies mailBox, wallet, world`queue
      ensures BoxOk() && wallet.gold >= 0 && Served(old(View()), o, View()) && AllInRange(TasksOf(o))
      ensures var error := BuyError(mailBox != null, old(View()), title, body, newId, price);
              if error != Success then o == RolledBack(error)
              else o.Committed? && Delivered(old(View()), View(), o.tasks, price, title, body, now, duration, newId)
      ensures Arrives(CLIENT_OVERHEAD, o)
      ensures world.queue == old(world.queue) + Outgoing(C2Z_MAIL_BUY, requestId, o)
    {
      hide Served, AllInRange, Records, TextTooLong, Fits, Packets;
      ghost var start := View();
      var uow := new UnitOfWork(C2Z_MAIL_BUY, requestId);
      TryAdd(title, body, now, duration, newId, uow, start);
      if uow.error == Success {
        BuyFits(uow.tasks[0].newInfo, price, start.gold);
        assert newId in View().mails && newId !in start.mails;
        var e := SpendGold(price, uow, start);
        if e != Success {
          uow.SetError(e);
        }
      }
      o := Finish(uow, start);
      RolledBackIsServed(start, uow.error);
    }

    // The part of a tick that runs under the mailbox lock. A request may have changed the mailbox
    // since the cached expiry was looked at, so nothing here relies on that.
    method TickMail(nowUt: Signed64, uow: UnitOfWork, ghost start: PlayerState)
      requires mailBox != null && mailBox.Valid() && start == View() && uow.tasks == [] && uow.error == Success
      modifies mailBox, uow
      ensures Records(start, uow) && uow.error == Success
      ensures View() == start.(mails := Unexpired(start.mails, nowUt))
      ensures uow.tasks == [] <==> View() == start
      ensures StreamBytes(uow.tasks) == ExpiredBytes(start.mails, nowUt)
    {
      hide AllApply, Replay, AllInRange, StreamBytes;
      StartRecords(start, uow);
      var ids := mailBox.TakeExpiredMailIds(nowUt);
      SameElements(ids, Expired(start.mails, nowUt));
      for i := 0 to |ids|
        invariant Records(start, uow) && uow.error == Success && View().gold == start.gold
        invariant View().mails == start.mails - set k | 0 <= k < i :: ids[k]
        invariant Enumerates(ids, Expired(start.mails, nowUt)) && uow.tasks == Removals(start.mails, ids[..i])
      {
        // The ids were just read from this mailbox, so the source's error branch is dead.
        var e := RemoveMail(ids[i], uow, start);
        assert e == Success;
        RemovalsMore(start.mails, ids, i);
      }
      assert ids[..|ids|] == ids;
      TakenAreExpired(start.mails, nowUt, ids);
      RemovalBytes(start.mails, ids, Expired(start.mails, nowUt));
    }

    // One tick: nothing is opened unless the cached expiry says so; then exactly the expired mails
    // go, each with its own removal task. They are reported if and only if they fit one packet, which
    // can be told beforehand.
    method Tick(nowUt: Signed64, requestId: Signed64) returns (o: Outcome)
      requires BoxOk()
      modifies mailBox, wallet, world`queue
      ensures BoxOk() && Served(old(View()), o, View()) && AllInRange(TasksOf(o)) && !o.RolledBack?
      ensures View() == old(View()).(mails := Unexpired(old(View()).mails, nowUt))
      ensures o == Unchanged <==> View() == old(View())
      ensures o.Committed? ==> StreamBytes(o.tasks) == ExpiredBytes(old(View()).mails, nowUt)
      ensures mailBox != null && nowUt < NO_EXPIRE ==> !mailBox.HasExpired(nowUt)
      ensures world.queue == old(world.queue) + Outgoing(0, requestId, o)
    {
      hide AllApply, Replay, AllInRange, Records, Packets, StreamBytes;
      ghost var start := View();
      o := Unchanged;
      NothingLeaves(unit, client, 0, requestId);
      NothingRecorded();
      if mailBox == null {
        return;
      }
      if mailBox.HasExpired(nowUt) {
        var uow := new UnitOfWork(0, requestId);
        TickMail(nowUt, uow, start);
        o := Finish(uow, start);
      } else {
        NoneExpired(mailBox.mails, mailBox.nextExpireUt, nowUt);
      }
      if nowUt < NO_EXPIRE {
        HasExpiredIffSomeMailHas(mailBox.mails, mailBox.nextExpireUt, nowUt);
      }
    }

    // ---- Sessions. ----

    method Serve(r: Request) returns (o: Outcome)
      requires BoxOk() && wallet.gold >= 0
      modifies mailBox, wallet, world`queue
      ensures BoxOk() && wallet.gold >= 0 && Served(old(View()), o, View()) && AllInRange(TasksOf(o))
      ensures !r.MailDel? && !r.TickAt? ==> Arrives(CLIENT_OVERHEAD, o)
      ensures o.RolledBack? ==> o.error != Success
      ensures world.queue == old(world.queue) + Outgoing(PacketOf(r), r.requestId, o)
    {
      match r {
        case MailAdd(title, body, now, duration, newId, requestId) =>
          o := HandleMailAdd(title, body, now, duration, newId, requestId);
        case MailDel(mailId, requestId) => o := HandleMailDel(mailId, requestId);
        case MailBuy(title, body, now, duration, price, newId, requestId) =>
          o := HandleMailBuy(title, body, now, duration, price, newId, requestId);
        case TickAt(nowUt, requestId) => o := Tick(nowUt, requestId);
      }
    }

    // Any number of requests and ticks, one after the other. A receiver that starts with the player as
    // it was loaded has the player as it is, at every moment, if and only if every commit fits; and
    // the commits alone, sent or not, tell how the player came to be as it is.
    method RunSession(requests: seq<Request>, ghost overhead: nat)
      returns (os: seq<Outcome>, ghost ss: seq<PlayerState>, ghost sent: seq<Packet>)
      requires BoxOk() && wallet.gold >= 0
      modifies mailBox, wallet, world`queue
      ensures BoxOk() && wallet.gold >= 0 && |os| == |requests|
      ensures ServedInTurn(ss, os) && ss[0] == old(View()) && ss[|os|] == View()
      ensures Replicas(overhead, ss[0], os) == ss <==> AllArrive(overhead, os)
      ensures View() == Replay(old(View()), AllCommitted(os))
      // What the receivers make of the bytes that were sent is what following the commits gives.
      ensures world.queue == old(world.queue) + sent
      ensures !world.closed ==>
                && WorldAfterAll(old(View()), sent) == Replicas(WORLD_OVERHEAD, old(View()), os)[|os|]
                && ClientAfterAll(client, old(View()), sent) ==
                   MailsOnly(old(View()), Replicas(CLIENT_OVERHEAD, old(View()), os)[|os|])
    {
      hide Served, AllApply, Replay, AllCommitted, Replicas, Arrives, Packets, AllInRange;
      hide WorldAfterAll, ClientAfterAll;
      os, ss, sent := [], [View()], [];
      NothingSent(client, View());
      for i := 0 to |requests|
        invariant BoxOk() && wallet.gold >= 0 && |os| == i && |ss| == i + 1
        invariant ss[0] == old(View()) && ss[i] == View()
        invariant forall k :: 0 <= k < i ==> Served(ss[k], os[k], ss[k + 1])
        invariant world.queue == old(world.queue) + sent && world.closed == old(world.closed)
        invariant !world.closed ==> Heard(client, old(View()), os, sent)
      {
        ghost var before := View();
        var o := Serve(requests[i]);
        if !world.closed {
          HeardMore(unit, client, old(View()), os, sent, PacketOf(requests[i]), requests[i].requestId,
                    before, o, View());
        }
        sent := sent + Outgoing(PacketOf(requests[i]), requests[i].requestId, o);
        os, ss := os + [o], ss + [View()];
      }
      SessionFollows(overhead, ss, os);
      SessionIsRecorded(ss, os);
    }
  }

  function PacketOf(r: Request): (id: nat)
    ensures id < 0x1_0000
  {
    match r
    case MailAdd(_, _, _, _, _, _) => C2Z_MAIL_ADD
    case MailDel(_, _) => C2Z_MAIL_DEL
    case MailBuy(_, _, _, _, _, _, _) => C2Z_MAIL_BUY
    case TickAt(_, _) => 0
  }

  // Both receivers have made of what was sent what following the commits gives.
  ghost predicate Heard(client: nat, start: PlayerState, os: seq<Outcome>, sent: seq<Packet>) {
    && WorldAfterAll(start, sent) == Replicas(WORLD_OVERHEAD, start, os)[|os|]
    && ClientAfterAll(client, start, sent) == MailsOnly(start, Replicas(CLIENT_OVERHEAD, start, os)[|os|])
  }

  lemma NothingSent(client: nat, start: PlayerState)
    ensures Heard(client, start, [], [])
  {
  }

  lemma HeardMore(unit: Signed64, client: Unsigned64, start: PlayerState, os: seq<Outcome>, sent: seq<Packet>,
                  request: nat, requestId: Signed64, s: PlayerState, o: Outcome, s': PlayerState)
    requires Heard(client, start, os, sent) && AllInRange(TasksOf(o)) && request < 0x1_0000
    requires Served(s, o, s') && (o.RolledBack? ==> o.error != Success)
    ensures Heard(client, start, os + [o], sent + Packets(unit, client, request, requestId, o))
  {
    hide Packets, AllInRange, AllApply, Replay, Fits, WorldAfterAll, ClientAfterAll, ClientPrintsAll, Lines;
    var w, c := WorldAfterAll(start, sent), ClientAfterAll(client, start, sent);
    if o.Committed? {
      AllApplyIsOfGold(s, o.tasks);
    }
    ReceiversFollow(unit, client, request, requestId, o, w, c);
    AfterConcat(client, start, sent, Packets(unit, client, request, requestId, o));
    var r := Replicas(CLIENT_OVERHEAD, start, os)[|os|];
    if o.Committed? {
      ReplayOnMails(c, r, o.tasks);
    }
    assert (os + [o])[..|os|] == os;
  }
}
