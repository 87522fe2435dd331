// Requests and ticks of one player side by side. A request works and sends in the player's own lane;
// a tick takes expired mails and sends in another. Both hold the mailbox lock only while they
// touch the mailbox, and what they did is sent later, so the sends of the two lanes may come in
// either order. `replica` is a receiver: the world server or the client.
module Lanes {
  import opened Options
  import opened Sets
  import opened TaskStream
  import opened TaskStreamLaws
  import opened Delivery
  import opened UnitOfWorkSpec

  // A unit of work under way in the request lane.
  datatype Work = Work(tasks: seq<Task>, failed: bool)

  // `tick` holds the removals of a tick that has not sent them yet; `used` the mail ids ever issued.
  datatype Lanes = Lanes(s: PlayerState, work: Option<Work>, tick: seq<Task>, replica: PlayerState, used: set<int>)

  datatype Action =
    | Add(m: MailInfo)                 // MailAdd and MailBuy, under the lock
    | Remove(mailId: int)              // MailDel, under the lock
    | Pay(price: int)                  // MailBuy, after its Add
    | Send                             // the request's unit of work ends well
    | Undo                             // or is rolled back
    | Expire(nowUt: int, ids: seq<int>) // the locked part of a tick; the ids in the map's order
    | TickSend                         // the tick's unit of work ends

  // The mail a request has put in and not sent yet.
  function Adding(st: Lanes): Option<MailInfo> {
    if st.work.Some? && st.work.value.tasks != [] && st.work.value.tasks[0].AddMail?
    then Some(st.work.value.tasks[0].newInfo) else None
  }

  function Removing(st: Lanes): Option<MailInfo> {
    if st.work.Some? && st.work.value.tasks != [] && st.work.value.tasks[0].RemoveMail?
    then Some(st.work.value.tasks[0].prevInfo) else None
  }

  predicate CanSend(st: Lanes) {
    st.work.Some? && !st.work.value.failed
  }

  predicate CanPay(st: Lanes) {
    CanSend(st) && |st.work.value.tasks| == 1 && st.work.value.tasks[0].AddMail?
  }

  // Requests that are refused before they change anything take no step.
  predicate Enabled(st: Lanes, a: Action) {
    match a
    case Add(m) =>
      st.work.None? && m.mailId !in st.used && |st.s.mails| < MAX_MAIL_COUNT && !TextTooLong(m.title, m.body)
    case Remove(mailId) => st.work.None? && mailId in st.s.mails
    case Pay(price) => CanPay(st)
    case Send => CanSend(st)
    case Undo => st.work.Some? && st.work.value.failed
    case Expire(nowUt, ids) => st.tick == [] && Distinct(ids) && Enumerates(ids, Expired(st.s.mails, nowUt))
    case TickSend => st.tick != []
  }

  function Step(overhead: nat, st: Lanes, a: Action): Lanes
    requires Enabled(st, a)
  {
    match a
    case Add(m) =>
      st.(s := st.s.(mails := st.s.mails[m.mailId := m]), work := Some(Work([AddMail(m, NO_MAIL)], false)),
          used := st.used + {m.mailId})
    case Remove(mailId) =>
      st.(s := st.s.(mails := st.s.mails - {mailId}),
          work := Some(Work([RemoveMail(NO_MAIL, st.s.mails[mailId])], false)))
    case Pay(price) =>
      if price < 0 || st.s.gold < price then st.(work := Some(Work(st.work.value.tasks, true)))
      else if price == 0 then st
      else
        st.(s := st.s.(gold := st.s.gold - price),
            work := Some(Work(st.work.value.tasks + [UpdateCurrency(GOLD, st.s.gold - price, st.s.gold)], false)))
    case Send =>
      st.(replica := Follow(overhead, st.replica, Committed(st.work.value.tasks)), work := None)
    case Undo =>
      st.(s := Rollback(st.s, st.work.value.tasks), work := None)
    case Expire(nowUt, ids) =>
      st.(s := st.s.(mails := st.s.mails - Expired(st.s.mails, nowUt)), tick := Removals(st.s.mails, ids))
    case TickSend =>
      st.(replica := Follow(overhead, st.replica, Committed(st.tick)), tick := [])
  }

  ghost predicate Run(overhead: nat, sts: seq<Lanes>, actions: seq<Action>) {
    && |sts| == |actions| + 1
    && forall i :: 0 <= i < |actions| ==>
         Enabled(sts[i], actions[i]) && sts[i + 1] == Step(overhead, sts[i], actions[i])
  }

  predicate Idle(st: Lanes) {
    st.work.None? && st.tick == []
  }

  // Nothing is under way, the receiver is in step, and every id there is has been issued.
  predicate InStep(st: Lanes) {
    Idle(st) && st.replica == st.s && st.s.mails.Keys <= st.used && IdsOk(st.s.mails)
  }

  // The mails a tick has taken and not reported.
  function Taken(tick: seq<Task>): map<int, MailInfo> {
    if tick == [] then map[]
    else
      var rest, last := Taken(tick[..|tick| - 1]), tick[|tick| - 1];
      if last.RemoveMail? then rest[last.prevInfo.mailId := last.prevInfo] else rest
  }

  // The mail whose Add is about to be sent has been taken by a tick whose removal was sent already.
  predicate Overtaken(st: Lanes) {
    && Adding(st).Some?
    && Adding(st).value.mailId !in st.s.mails && Adding(st).value.mailId !in Taken(st.tick)
  }

  // The steps that put a receiver out of step: sends over the limit, and sends that were overtaken.
  predicate Losing(overhead: nat, st: Lanes, a: Action) {
    match a
    case Send => CanSend(st) && (!Fits(overhead, st.work.value.tasks) || Overtaken(st))
    case TickSend => !Fits(overhead, st.tick)
    case _ => false
  }

  // ---- What a receiver has. ----

  // Mails the receiver will keep for ever, and taken mails whose Add was not sent (at most one).
  datatype Ledger = Ledger(stale: map<int, MailInfo>, unsent: set<int>)

  // Only these units of work occur.
  predicate WorkOk(st: Lanes) {
    st.work.Some? ==>
      var Work(tasks, failed) := st.work.value;
      && tasks != []
      && match tasks[0]
         case AddMail(m, _) =>
           !TextTooLong(m.title, m.body) && (|tasks| == 1 || (!failed && |tasks| == 2 && PaysTo(tasks[1], st.s.gold)))
         case RemoveMail(_, m) => |tasks| == 1 && !failed
         case UpdateCurrency(_, _, _) => false
  }

  predicate PaysTo(t: Task, gold: int) {
    t.UpdateCurrency? && t.newValue == gold
  }

  predicate GoldOk(st: Lanes) {
    st.replica.gold == if st.work.Some? && |st.work.value.tasks| == 2 && PaysTo(st.work.value.tasks[1], st.s.gold)
                       then st.work.value.tasks[1].prevValue else st.s.gold
  }

  predicate IdsOk(mails: map<int, MailInfo>) {
    forall id :: id in mails ==> mails[id].mailId == id
  }

  predicate Short(m: MailInfo) {
    !TextTooLong(m.title, m.body)
  }

  ghost predicate TickOk(tick: seq<Task>) {
    && (forall i :: 0 <= i < |tick| ==> tick[i].RemoveMail?)
    && StreamBytes(tick) == SetBytes(Taken(tick), Taken(tick).Keys)
  }

  // Where the mails are: in the mailbox, taken by a tick, taken by a request, put in by a request,
  // and with the receiver.
  datatype Places = Places(
    here: map<int, MailInfo>, taken: map<int, MailInfo>, removing: Option<MailInfo>, adding: Option<MailInfo>,
    replica: map<int, MailInfo>, used: set<int>)

  function PlacesOf(st: Lanes): Places {
    Places(st.s.mails, Taken(st.tick), Removing(st), Adding(st), st.replica.mails, st.used)
  }

  function At(mails: map<int, MailInfo>, id: int): Option<MailInfo> {
    if id in mails then Some(mails[id]) else None
  }

  function Only(m: Option<MailInfo>, id: int): Option<MailInfo> {
    if m.Some? && m.value.mailId == id then m else None
  }

  // Everything about one id. It is in one place at most. A receiver in step has it unless its Add
  // was not sent, and has it until its removal was sent.
  predicate PlacedAt(p: Places, l: Ledger, id: int) {
    var here, taken, removing := At(p.here, id), At(p.taken, id), Only(p.removing, id);
    var adding, stale := Only(p.adding, id), At(l.stale, id);
    && (here.Some? ==> here.value.mailId == id && taken.None? && removing.None?)
    && (taken.Some? ==> removing.None?)
    && (stale.Some? ==> here.None? && taken.None? && removing.None? && adding.None?)
    && (here.Some? || taken.Some? || removing.Some? || adding.Some? || stale.Some? ==> id in p.used)
    && (id in l.unsent ==> taken.Some? && Short(taken.value))
    && (adding.Some? ==>
          && Short(adding.value) && removing.None?
          && (here.Some? ==> here == adding) && (taken.Some? ==> id in l.unsent && taken == adding))
    && At(p.replica, id) ==
       if stale.Some? then stale else if adding.Some? || id in l.unsent then None
       else if here.Some? then here else if removing.Some? then removing else taken
  }

  // At most one taken mail is unannounced: the one that was being added.
  ghost predicate Placed(p: Places, l: Ledger) {
    && (forall id :: PlacedAt(p, l, id))
    && forall x, y :: x in l.unsent && y in l.unsent ==> x == y
  }

  ghost predicate Inv(st: Lanes, l: Ledger) {
    WorkOk(st) && GoldOk(st) && TickOk(st.tick) && Placed(PlacesOf(st), l)
  }

  // ---- Ticks. ----

  lemma {:induction false} RemovalsAreTaken(mails: map<int, MailInfo>, ids: seq<int>)
    requires IdsOk(mails) && forall i :: 0 <= i < |ids| ==> ids[i] in mails
    ensures Taken(Removals(mails, ids)) == map id | id in ids :: mails[id]
    decreases |ids|
  {
    if ids != [] {
      var n := |ids| - 1;
      RemovalsAreTaken(mails, ids[..n]);
      assert Removals(mails, ids)[..n] == Removals(mails, ids[..n]);
      assert forall id :: id in ids <==> id in ids[..n] || id == ids[n] by { assert ids == ids[..n] + [ids[n]]; }
      assert Taken(Removals(mails, ids)) == Taken(Removals(mails, ids[..n]))[ids[n] := mails[ids[n]]];
    }
  }

  lemma {:induction false} TickRemovesTaken(r: PlayerState, tick: seq<Task>)
    requires forall i :: 0 <= i < |tick| ==> tick[i].RemoveMail?
    ensures Replay(r, tick) == r.(mails := r.mails - Taken(tick).Keys)
    decreases |tick|
  {
    if tick == [] {
      assert r.mails - {} == r.mails;
    } else {
      TickRemovesTaken(Do(r, tick[0]), tick[1..]);
      TakenFirst(tick);
    }
  }

  lemma {:induction false} TakenFirst(tick: seq<Task>)
    requires tick != [] && forall i :: 0 <= i < |tick| ==> tick[i].RemoveMail?
    ensures Taken(tick).Keys == {tick[0].prevInfo.mailId} + Taken(tick[1..]).Keys
    decreases |tick|
  {
    var n := |tick| - 1;
    if n == 0 {
      assert tick[..0] == [] && tick[1..] == [];
    } else {
      TakenFirst(tick[..n]);
      assert tick[..n][1..] == tick[1..][..n - 1] && tick[1..][n - 1] == tick[n];
    }
  }

  lemma ExpireIsTickOk(mails: map<int, MailInfo>, ids: seq<int>, due: set<int>)
    requires IdsOk(mails) && due <= mails.Keys && Distinct(ids) && Enumerates(ids, due)
    ensures TickOk(Removals(mails, ids))
    ensures Taken(Removals(mails, ids)) == map id | id in due :: mails[id]
  {
    hide StreamBytes, SetBytes;
    RemovalsAreTaken(mails, ids);
    var taken := Taken(Removals(mails, ids));
    assert forall id :: id in ids <==> id in due;
    assert taken == map id | id in due :: mails[id];
    assert taken.Keys == due;
    assert Removals(taken, ids) == Removals(mails, ids);
    RemovalBytes(taken, ids, due);
  }

  // ---- How the mails move. ----

  lemma PlaceAdd(p: Places, l: Ledger, m: MailInfo)
    requires Placed(p, l) && p.adding.None? && p.removing.None? && m.mailId !in p.used && Short(m)
    ensures Placed(p.(here := p.here[m.mailId := m], adding := Some(m), used := p.used + {m.mailId}), l)
  {
    hide Short;
    var p' := p.(here := p.here[m.mailId := m], adding := Some(m), used := p.used + {m.mailId});
    forall id ensures PlacedAt(p', l, id) {
      assert PlacedAt(p, l, id);
    }
  }

  lemma PlaceRemove(p: Places, l: Ledger, id: int)
    requires Placed(p, l) && p.adding.None? && p.removing.None? && id in p.here
    ensures Placed(p.(here := p.here - {id}, removing := Some(p.here[id])), l)
  {
    hide Short;
    var p' := p.(here := p.here - {id}, removing := Some(p.here[id]));
    assert PlacedAt(p, l, id);
    forall x ensures PlacedAt(p', l, x) {
      assert PlacedAt(p, l, x);
    }
  }

  lemma PlaceUndo(p: Places, l: Ledger)
    requires Placed(p, l) && p.adding.Some? && p.removing.None?
    ensures Placed(p.(here := p.here - {p.adding.value.mailId}, adding := None), l)
  {
    hide Short;
    var p' := p.(here := p.here - {p.adding.value.mailId}, adding := None);
    forall id ensures PlacedAt(p', l, id) {
      assert PlacedAt(p, l, id);
    }
  }

  // The Add of a mail arrives. If the mail is in the mailbox or with a tick whose send is still to
  // come, the receiver is where it should be; otherwise it has the mail for good.
  lemma PlaceSendAdd(p: Places, l: Ledger) returns (l': Ledger)
    requires Placed(p, l) && p.adding.Some? && p.removing.None?
    ensures var m := p.adding.value;
            && Placed(p.(replica := p.replica[m.mailId := m], adding := None), l')
            && l'.stale == if m.mailId in p.here || m.mailId in p.taken then l.stale else l.stale[m.mailId := m]
  {
    hide Short;
    var m := p.adding.value;
    var p' := p.(replica := p.replica[m.mailId := m], adding := None);
    l' := if m.mailId in p.here || m.mailId in p.taken then Ledger(l.stale, l.unsent - {m.mailId})
          else Ledger(l.stale[m.mailId := m], l.unsent);
    assert PlacedAt(p, l, m.mailId);
    forall id ensures PlacedAt(p', l', id) {
      assert PlacedAt(p, l, id);
    }
  }

  // The removal of a mail arrives or is dropped.
  lemma PlaceSendRemove(p: Places, l: Ledger, arrives: bool) returns (l': Ledger)
    requires Placed(p, l) && p.adding.None? && p.removing.Some?
    ensures var m := p.removing.value;
            && Placed(p.(replica := if arrives then p.replica - {m.mailId} else p.replica, removing := None), l')
            && l'.stale == if arrives then l.stale else l.stale[m.mailId := m]
  {
    hide Short;
    var m := p.removing.value;
    var p' := p.(replica := if arrives then p.replica - {m.mailId} else p.replica, removing := None);
    l' := if arrives then l else Ledger(l.stale[m.mailId := m], l.unsent);
    assert PlacedAt(p, l, m.mailId);
    forall id ensures PlacedAt(p', l', id) {
      assert PlacedAt(p, l, id);
    }
  }

  lemma PlaceExpire(p: Places, l: Ledger, due: set<int>) returns (l': Ledger)
    requires Placed(p, l) && p.taken == map[] && due <= p.here.Keys
    ensures Placed(p.(here := p.here - due, taken := map id | id in due :: p.here[id]), l') && l'.stale == l.stale
  {
    hide Short;
    var p' := p.(here := p.here - due, taken := map id | id in due :: p.here[id]);
    l' := Ledger(l.stale, if p.adding.Some? && p.adding.value.mailId in due then {p.adding.value.mailId} else {});
    forall id ensures PlacedAt(p', l', id) {
      assert PlacedAt(p, l, id);
    }
  }

  // The removals of a tick arrive or are dropped.
  lemma PlaceTickSend(p: Places, l: Ledger, arrives: bool) returns (l': Ledger)
    requires Placed(p, l)
    ensures Placed(p.(replica := if arrives then p.replica - p.taken.Keys else p.replica, taken := map[]), l')
    ensures l'.stale == if arrives then l.stale else l.stale + (p.taken - l.unsent)
  {
    hide Short;
    var p' := p.(replica := if arrives then p.replica - p.taken.Keys else p.replica, taken := map[]);
    l' := Ledger(if arrives then l.stale else l.stale + (p.taken - l.unsent), {});
    forall id ensures PlacedAt(p', l', id) {
      assert PlacedAt(p, l, id);
    }
  }

  // A tick whose removals do not fit has taken a mail the receiver knows of.
  lemma DroppedTickHasKnownMail(overhead: nat, st: Lanes, l: Ledger)
    requires Inv(st, l) && overhead <= CLIENT_OVERHEAD && !Fits(overhead, st.tick)
    ensures exists id :: id in Taken(st.tick) && id !in l.unsent
  {
    hide WorkOk, GoldOk, StreamBytes, Taken;
    var taken := Taken(st.tick);
    if forall id :: id in taken ==> id in l.unsent {
      forall id | id in taken ensures Short(taken[id]) {
        assert PlacedAt(PlacesOf(st), l, id);
      }
      assert taken.Keys <= l.unsent;
      AtMostOne(taken.Keys, l.unsent);
      SetBytesBound(taken, taken.Keys);
    }
  }

  lemma AtMostOne(ids: set<int>, all: set<int>)
    requires ids <= all && forall x, y :: x in all && y in all ==> x == y
    ensures |ids| <= 1
  {
    if ids != {} {
      var id := OneOf(ids);
      assert forall x :: x in ids <==> x == id;
      assert ids == {id};
    }
  }

  // ---- The steps. ----

  lemma StepAdd(overhead: nat, st: Lanes, m: MailInfo, l: Ledger)
    requires Inv(st, l) && Enabled(st, Add(m))
    ensures Inv(Step(overhead, st, Add(m)), l)
  {
    hide Placed, TickOk, Taken, Short, TextTooLong;
    var st' := Step(overhead, st, Add(m));
    assert Short(m) by { ShortIs(m); }
    PlaceAdd(PlacesOf(st), l, m);
    assert PlacesOf(st') ==
           PlacesOf(st).(here := st.s.mails[m.mailId := m], adding := Some(m), used := st.used + {m.mailId});
  }

  lemma ShortIs(m: MailInfo)
    ensures Short(m) <==> !TextTooLong(m.title, m.body)
  {
  }

  lemma StepRemove(overhead: nat, st: Lanes, id: int, l: Ledger)
    requires Inv(st, l) && Enabled(st, Remove(id))
    ensures Inv(Step(overhead, st, Remove(id)), l)
  {
    hide Placed, TickOk, Taken, Short, TextTooLong;
    var st' := Step(overhead, st, Remove(id));
    PlaceRemove(PlacesOf(st), l, id);
    assert PlacesOf(st') == PlacesOf(st).(here := st.s.mails - {id}, removing := Some(st.s.mails[id]));
  }

  lemma StepPay(overhead: nat, st: Lanes, price: int, l: Ledger)
    requires Inv(st, l) && Enabled(st, Pay(price))
    ensures Inv(Step(overhead, st, Pay(price)), l)
  {
    hide Placed, TickOk, Taken, Short, TextTooLong;
    assert PlacesOf(Step(overhead, st, Pay(price))) == PlacesOf(st);
  }

  // Whether or not a tick has taken the mail, a rollback leaves the player as if it had never been added.
  lemma StepUndo(overhead: nat, st: Lanes, l: Ledger)
    requires Inv(st, l) && Enabled(st, Undo)
    ensures Inv(Step(overhead, st, Undo), l)
    ensures Adding(st).Some?
    ensures Step(overhead, st, Undo).s == st.s.(mails := st.s.mails - {Adding(st).value.mailId})
  {
    hide Placed, TickOk, Taken, Short, TextTooLong;
    var st', ts := Step(overhead, st, Undo), st.work.value.tasks;
    assert ts[..0] == [] && Rollback(st.s, ts) == UnitOfWorkSpec.Undo(st.s, ts[0]);
    PlaceUndo(PlacesOf(st), l);
    assert PlacesOf(st') == PlacesOf(st).(here := st.s.mails - {ts[0].newInfo.mailId}, adding := None);
  }

  // A request that adds always fits its packet.
  lemma AddingFits(overhead: nat, st: Lanes)
    requires WorkOk(st) && Adding(st).Some? && overhead <= CLIENT_OVERHEAD
    ensures Fits(overhead, st.work.value.tasks)
  {
    var ts := st.work.value.tasks;
    assert StreamBytes(ts) == TaskBytes(ts[0]) + StreamBytes(ts[1..]);
    if |ts| == 2 {
      assert ts[1..][0] == ts[1] && ts[1..][1..] == [];
    }
  }

  // What the receiver makes of a request's tasks.
  lemma ReplayWork(st: Lanes)
    requires WorkOk(st) && GoldOk(st) && CanSend(st)
    ensures Replay(st.replica, st.work.value.tasks) ==
            PlayerState(if Adding(st).Some? then st.replica.mails[Adding(st).value.mailId := Adding(st).value]
                        else st.replica.mails - {Removing(st).value.mailId}, st.s.gold)
  {
    hide TextTooLong;
    var ts := st.work.value.tasks;
    if |ts| == 2 {
      assert ts[1..][0] == ts[1] && ts[1..][1..] == [];
      assert Replay(st.replica, ts) == Replay(Do(st.replica, ts[0]), ts[1..]) == Do(Do(st.replica, ts[0]), ts[1]);
    } else {
      assert ts[1..] == [];
      assert Replay(st.replica, ts) == Do(st.replica, ts[0]);
    }
  }

  lemma StepSend(overhead: nat, st: Lanes, l: Ledger) returns (l': Ledger)
    requires Inv(st, l) && Enabled(st, Send) && overhead <= CLIENT_OVERHEAD
    ensures Inv(Step(overhead, st, Send), l') && l.stale.Keys <= l'.stale.Keys
    ensures l'.stale == map[] <==> l.stale == map[] && !Losing(overhead, st, Send)
  {
    hide Placed, TickOk, Taken, Short, TextTooLong, Fits, Replay;
    var st', p := Step(overhead, st, Send), PlacesOf(st);
    var arrives := Fits(overhead, st.work.value.tasks);
    ReplayWork(st);
    if Adding(st).Some? {
      AddingFits(overhead, st);
      l' := PlaceSendAdd(p, l);
      var m := p.adding.value;
      assert PlacesOf(st') == p.(replica := p.replica[m.mailId := m], adding := None);
      assert m.mailId in l.stale[m.mailId := m];
    } else {
      l' := PlaceSendRemove(p, l, arrives);
      var id := p.removing.value.mailId;
      assert PlacesOf(st') == p.(replica := if arrives then p.replica - {id} else p.replica, removing := None);
      assert id in l.stale[id := p.removing.value];
    }
  }

  lemma StepExpire(overhead: nat, st: Lanes, nowUt: int, ids: seq<int>, l: Ledger) returns (l': Ledger)
    requires Inv(st, l) && Enabled(st, Expire(nowUt, ids))
    ensures Inv(Step(overhead, st, Expire(nowUt, ids)), l') && l'.stale == l.stale
  {
    hide TickOk, Short, TextTooLong, PlacedAt, Removals;
    var st', due := Step(overhead, st, Expire(nowUt, ids)), Expired(st.s.mails, nowUt);
    HereIdsOk(st, l);
    ExpireIsTickOk(st.s.mails, ids, due);
    l' := PlaceExpire(PlacesOf(st), l, due);
    assert PlacesOf(st') ==
           PlacesOf(st).(here := st.s.mails - due, taken := map id | id in due :: st.s.mails[id]);
  }

  lemma HereIdsOk(st: Lanes, l: Ledger)
    requires Inv(st, l)
    ensures IdsOk(st.s.mails)
  {
    forall id | id in st.s.mails
      ensures st.s.mails[id].mailId == id
    {
      assert PlacedAt(PlacesOf(st), l, id);
    }
  }

  lemma StepTickSend(overhead: nat, st: Lanes, l: Ledger) returns (l': Ledger)
    requires Inv(st, l) && Enabled(st, TickSend) && overhead <= CLIENT_OVERHEAD
    ensures Inv(Step(overhead, st, TickSend), l') && l.stale.Keys <= l'.stale.Keys
    ensures l'.stale == map[] <==> l.stale == map[] && !Losing(overhead, st, TickSend)
  {
    hide Placed, Short, TextTooLong, Fits, Replay, StreamBytes, Taken;
    var st', p := Step(overhead, st, TickSend), PlacesOf(st);
    var arrives := Fits(overhead, st.tick);
    TickRemovesTaken(st.replica, st.tick);
    l' := PlaceTickSend(p, l, arrives);
    NothingTaken();
    assert PlacesOf(st') == p.(replica := if arrives then p.replica - p.taken.Keys else p.replica, taken := map[]);
    if !arrives {
      DroppedTickHasKnownMail(overhead, st, l);
    }
  }

  lemma NothingTaken()
    ensures Taken([]) == map[] && TickOk([])
  {
  }

  lemma StepKeeps(overhead: nat, st: Lanes, a: Action, l: Ledger) returns (l': Ledger)
    requires Inv(st, l) && Enabled(st, a) && overhead <= CLIENT_OVERHEAD
    ensures Inv(Step(overhead, st, a), l')
    ensures l'.stale == map[] <==> l.stale == map[] && !Losing(overhead, st, a)
  {
    hide Inv, Enabled, Step, Fits;
    l' := l;
    match a {
      case Add(m) => StepAdd(overhead, st, m, l);
      case Remove(id) => StepRemove(overhead, st, id, l);
      case Pay(price) => StepPay(overhead, st, price, l);
      case Undo => StepUndo(overhead, st, l);
      case Send => l' := StepSend(overhead, st, l);
      case Expire(nowUt, ids) => l' := StepExpire(overhead, st, nowUt, ids, l);
      case TickSend => l' := StepTickSend(overhead, st, l);
    }
  }

  lemma InStepInv(st: Lanes)
    requires InStep(st)
    ensures Inv(st, Ledger(map[], {}))
  {
    var p, l := PlacesOf(st), Ledger(map[], {});
    forall id ensures PlacedAt(p, l, id) {
    }
  }

  lemma {:induction false} RunKeeps(overhead: nat, sts: seq<Lanes>, actions: seq<Action>, k: nat) returns (l: Ledger)
    requires Run(overhead, sts, actions) && InStep(sts[0]) && overhead <= CLIENT_OVERHEAD && k <= |actions|
    ensures Inv(sts[k], l)
    ensures l.stale == map[] <==> forall i :: 0 <= i < k ==> !Losing(overhead, sts[i], actions[i])
    decreases k
  {
    hide Inv, Enabled, Step, Losing, InStep;
    if k == 0 {
      InStepInv(sts[0]);
      l := Ledger(map[], {});
    } else {
      var before := RunKeeps(overhead, sts, actions, k - 1);
      l := StepKeeps(overhead, sts[k - 1], actions[k - 1], before);
    }
  }

  // Requests and ticks in any interleaving of their locked parts and sends: whenever both lanes are
  // idle again, a receiver that started in step is in step if and only if no send was over the limit
  // and no mail was taken by a tick that reported it before its Add was sent.
  lemma InStepIffNothingLost(overhead: nat, sts: seq<Lanes>, actions: seq<Action>, k: nat)
    requires Run(overhead, sts, actions) && InStep(sts[0]) && overhead <= CLIENT_OVERHEAD
    requires k <= |actions| && Idle(sts[k])
    ensures sts[k].replica == sts[k].s <==> forall i :: 0 <= i < k ==> !Losing(overhead, sts[i], actions[i])
  {
    hide Losing;
    var l := RunKeeps(overhead, sts, actions, k);
    IdleReplica(sts[k], l);
  }

  lemma IdleReplica(st: Lanes, l: Ledger)
    requires Inv(st, l) && Idle(st)
    ensures st.replica == st.s <==> l.stale == map[]
  {
    var p := PlacesOf(st);
    NothingTaken();
    if st.replica == st.s {
      forall id
        ensures id !in l.stale
      {
        assert PlacedAt(p, l, id);
      }
      assert l.stale.Keys == {};
    }
    if l.stale == map[] {
      forall id
        ensures At(st.replica.mails, id) == At(st.s.mails, id)
      {
        assert PlacedAt(p, l, id);
      }
      SameMails(st.replica.mails, st.s.mails);
    }
  }

  lemma SameMails(a: map<int, MailInfo>, b: map<int, MailInfo>)
    requires forall id :: At(a, id) == At(b, id)
    ensures a == b
  {
    forall id
      ensures id in a <==> id in b
      ensures id in a && id in b ==> a[id] == b[id]
    {
      assert At(a, id) == At(b, id);
    }
    assert a.Keys == b.Keys;
  }

  // A tick takes a mail whose Add has not been sent.
  predicate TakesPending(st: Lanes, a: Action) {
    a.Expire? && Adding(st).Some? && Adding(st).value.mailId in Expired(st.s.mails, a.nowUt)
  }

  lemma {:induction false} UntakenStaysHere(overhead: nat, sts: seq<Lanes>, actions: seq<Action>, k: nat)
    requires Run(overhead, sts, actions) && InStep(sts[0]) && k <= |actions|
    requires forall i :: 0 <= i < k ==> !TakesPending(sts[i], actions[i])
    ensures Adding(sts[k]).Some? ==> Adding(sts[k]).value.mailId in sts[k].s.mails
    decreases k
  {
    hide Follow, Taken, TextTooLong, Removals, Rollback;
    if k > 0 {
      UntakenStaysHere(overhead, sts, actions, k - 1);
      assert !TakesPending(sts[k - 1], actions[k - 1]);
    }
  }

  // In particular a receiver stays in step as long as every send fits and no tick takes a mail
  // between its Add and its send, and the latter is so if every mail outlives its request.
  lemma UntakenAndFittingIsInStep(overhead: nat, sts: seq<Lanes>, actions: seq<Action>, k: nat)
    requires Run(overhead, sts, actions) && InStep(sts[0]) && overhead <= CLIENT_OVERHEAD
    requires k <= |actions| && Idle(sts[k])
    requires forall i :: 0 <= i < k ==> !TakesPending(sts[i], actions[i])
    requires forall i :: 0 <= i < k ==>
               && (actions[i].Send? ==> Fits(overhead, sts[i].work.value.tasks))
               && (actions[i].TickSend? ==> Fits(overhead, sts[i].tick))
    ensures sts[k].replica == sts[k].s
  {
    forall i | 0 <= i < k
      ensures !Losing(overhead, sts[i], actions[i])
    {
      UntakenStaysHere(overhead, sts, actions, i);
    }
    InStepIffNothingLost(overhead, sts, actions, k);
  }

  // A mail that expires at once: added, taken, reported as taken, reported as added. The mailbox is
  // empty in the end, and the receiver has the mail.
  lemma OvertakenAddStays(overhead: nat)
    requires overhead <= CLIENT_OVERHEAD
    ensures exists sts: seq<Lanes>, actions: seq<Action> ::
              && Run(overhead, sts, actions) && InStep(sts[0]) && |actions| == 4 && Idle(sts[4])
              && sts[4].s.mails == map[] && sts[4].replica.mails.Keys == {1}
  {
    hide TextTooLong, Follow, Taken, Rollback;
    var m := MailInfo(1, [], [], 0, 0);
    var none := PlayerState(map[], 0);
    var st0 := Lanes(none, None, [], none, {});
    var actions := [Add(m), Expire(0, [1]), TickSend, Send];
    assert Enabled(st0, actions[0]) by { EmptyTextsAreShort(); }
    var st1 := Step(overhead, st0, actions[0]);
    assert Expired(st1.s.mails, 0) == {1};
    assert Enabled(st1, actions[1]);
    var st2 := Step(overhead, st1, actions[1]);
    assert st2.tick == [RemoveMail(NO_MAIL, m)] && st2.s.mails == map[];
    assert Enabled(st2, actions[2]);
    var st3 := Step(overhead, st2, actions[2]);
    OneMailFollows(overhead, none, m);
    assert st3.replica.mails == map[];
    assert Enabled(st3, actions[3]);
    var st4 := Step(overhead, st3, actions[3]);
    assert st4.replica.mails == map[1 := m];
    var sts := [st0, st1, st2, st3, st4];
    assert Run(overhead, sts, actions);
    assert InStep(sts[0]) && Idle(sts[4]) && sts[4].s.mails == map[] && sts[4].replica.mails.Keys == {1};
  }

  lemma EmptyTextsAreShort()
    ensures !TextTooLong([], [])
  {
  }

  lemma OneMailFollows(overhead: nat, s: PlayerState, m: MailInfo)
    requires overhead <= CLIENT_OVERHEAD && m.title == [] && m.body == []
    ensures Follow(overhead, s, Committed([AddMail(m, NO_MAIL)])) == s.(mails := s.mails[m.mailId := m])
    ensures Follow(overhead, s, Committed([RemoveMail(NO_MAIL, m)])) == s.(mails := s.mails - {m.mailId})
  {
    OneTask(s, AddMail(m, NO_MAIL));
    OneTask(s, RemoveMail(NO_MAIL, m));
  }

  // A purchase that no tick comes in between of does what it does when it has the player to itself: it
  // takes the price and reports mail and payment if the gold covers a non-negative price, and leaves
  // player and receiver as they were otherwise.
  lemma PurchaseAlone(overhead: nat, st: Lanes, m: MailInfo, price: int)
    requires Idle(st) && Enabled(st, Add(m)) && m.mailId !in st.s.mails
    ensures var st1 := Step(overhead, st, Add(m));
            Enabled(st1, Pay(price))
            && var st2 := Step(overhead, st1, Pay(price));
            if 0 <= price <= st.s.gold then
              Enabled(st2, Send)
              && var st3 := Step(overhead, st2, Send);
              && Idle(st3) && st3.s == PlayerState(st.s.mails[m.mailId := m], st.s.gold - price)
              && st3.replica == Follow(overhead, st.replica, Committed(
                   [AddMail(m, NO_MAIL)]
                    + if price == 0 then [] else [UpdateCurrency(GOLD, st.s.gold - price, st.s.gold)]))
            else
              Enabled(st2, Undo)
              && var st3 := Step(overhead, st2, Undo);
              Idle(st3) && st3.s == st.s && st3.replica == st.replica
  {
    hide Follow, TextTooLong;
    var st1 := Step(overhead, st, Add(m));
    var ts := st1.work.value.tasks;
    assert ts == [AddMail(m, NO_MAIL)];
    if 0 <= price <= st.s.gold {
      assert ts + [] == ts;
    } else {
      assert ts[..0] == [] && Rollback(st1.s, ts) == UnitOfWorkSpec.Undo(st1.s, ts[0]);
      assert st.s.mails[m.mailId := m] - {m.mailId} == st.s.mails;
    }
  }
}
