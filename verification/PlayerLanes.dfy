// One player's mailbox and wallet, worked on by its request lane and by the tick lane. Each method is
// what happens under one lock, or one send, and is one step of the two lanes.
module PlayerLanes {
  import opened Options
  import opened TaskStream
  import opened TaskStreamLaws
  import opened Delivery
  import opened UnitOfWorkSpec
  import Lanes
  import UnitOfWork

  class PlayerLanes {
    const mailBox: UnitOfWork.MailModel
    const wallet: UnitOfWork.CurrencyModel
    var work: Option<UnitOfWork.UnitOfWork>   // of the request under way
    var ticking: seq<Task>                    // of the tick under way
    ghost const overhead: nat
    ghost var replica: PlayerState
    ghost var used: set<int>

    ghost predicate Valid()
      reads this, mailBox
    {
      mailBox.Valid()
    }

    ghost function View(): Lanes.Lanes
      reads this, mailBox, wallet, if work.Some? then {work.value} else {}
    {
      Lanes.Lanes(PlayerState(mailBox.mails, wallet.gold),
                  if work.Some? then Some(Lanes.Work(work.value.tasks, work.value.error != Success)) else None,
                  ticking, replica, used)
    }

    constructor (mailBox: UnitOfWork.MailModel, wallet: UnitOfWork.CurrencyModel, ghost overhead: nat)
      requires mailBox.Valid()
      ensures Valid() && this.mailBox == mailBox && this.wallet == wallet && this.overhead == overhead
      ensures Lanes.InStep(View()) && View().s == PlayerState(mailBox.mails, wallet.gold)
    {
      this.mailBox, this.wallet, this.overhead := mailBox, wallet, overhead;
      work, ticking := None, [];
      replica, used := PlayerState(mailBox.mails, wallet.gold), mailBox.mails.Keys;
    }

    // A request puts a mail in.
    method Add(m: MailInfo, newId: Signed64, request: nat, requestId: Signed64)
      requires Valid() && MailInRange(m) && Lanes.Enabled(View(), Lanes.Add(m.(mailId := newId)))
      requires newId !in mailBox.mails
      modifies this`work, this`used, mailBox
      ensures Valid() && (work.Some? ==> fresh(work.value))
      ensures View() == Lanes.Step(overhead, old(View()), Lanes.Add(m.(mailId := newId)))
    {
      var uow := new UnitOfWork.UnitOfWork(request, requestId);
      var e := mailBox.Add(m, newId, uow);
      assert uow.tasks == [AddMail(m.(mailId := newId), NO_MAIL)];
      work, used := Some(uow), used + {newId};
    }

    // A request takes a mail out.
    method Remove(mailId: int, request: nat, requestId: Signed64)
      requires Valid() && Lanes.Enabled(View(), Lanes.Remove(mailId))
      modifies this`work, mailBox
      ensures Valid() && (work.Some? ==> fresh(work.value))
      ensures View() == Lanes.Step(overhead, old(View()), Lanes.Remove(mailId))
    {
      var uow := new UnitOfWork.UnitOfWork(request, requestId);
      var e := mailBox.Remove(mailId, uow);
      assert uow.tasks == [RemoveMail(NO_MAIL, old(mailBox.mails)[mailId])];
      work := Some(uow);
    }

    // A purchase pays; without the gold it fails.
    method Pay(price: Signed64)
      requires Valid() && Lanes.Enabled(View(), Lanes.Pay(price)) && wallet.gold >= 0
      modifies wallet, work.value
      ensures Valid() && wallet.gold >= 0
      ensures View() == Lanes.Step(overhead, old(View()), Lanes.Pay(price))
    {
      assert Int64(wallet.gold) && Int64(price);
      assert price >= 0 ==> Int64(wallet.gold as int - price as int);
      var uow := work.value;
      ghost var tasks := uow.tasks;
      var e := wallet.Decrease(GOLD, price, uow);
      if e != Success {
        assert uow.tasks == tasks;
        uow.SetError(e);
      } else if price == 0 {
        assert uow.tasks == tasks;
      }
    }

    // The request's unit of work ends well: what it recorded is sent.
    method Send() returns (o: Outcome)
      requires Valid() && Lanes.Enabled(View(), Lanes.Send)
      modifies this`work, this`replica
      ensures Valid() && o == Committed(old(work.value.tasks))
      ensures View() == Lanes.Step(overhead, old(View()), Lanes.Send)
    {
      o := Committed(work.value.tasks);
      replica := Follow(overhead, replica, o);
      work := None;
    }

    // Or it failed: the one thing it did, putting a mail in, is undone. A tick may have been quicker,
    // and then there is nothing left to take out.
    method Undo() returns (o: Outcome)
      requires Valid() && Lanes.Enabled(View(), Lanes.Undo) && Lanes.WorkOk(View())
      modifies this`work, mailBox
      ensures Valid() && o == RolledBack(old(work.value.error))
      ensures View() == Lanes.Step(overhead, old(View()), Lanes.Undo)
    {
      var tasks := work.value.tasks;
      assert tasks[..0] == [] && Rollback(View().s, tasks) == UnitOfWorkSpec.Undo(View().s, tasks[0]);
      var sink := new UnitOfWork.UnitOfWork(0, 0);
      var e := mailBox.Remove(tasks[0].newInfo.mailId, sink);
      assert e != Success ==> mailBox.mails - {tasks[0].newInfo.mailId} == mailBox.mails;
      o := RolledBack(work.value.error);
      work := None;
    }

    // A tick takes the expired mails.
    method Expire(nowUt: Signed64) returns (ids: seq<int>)
      requires Valid() && ticking == []
      modifies this`ticking, mailBox
      ensures Valid()
      ensures Lanes.Enabled(old(View()), Lanes.Expire(nowUt, ids))
      ensures View() == Lanes.Step(overhead, old(View()), Lanes.Expire(nowUt, ids))
    {
      hide UnitOfWorkSpec.Expired;
      var uow := new UnitOfWork.UnitOfWork(0, 0);
      ghost var mails := mailBox.mails;
      ghost var due := Expired(mails, nowUt);
      ids := TakeExpired(nowUt);
      for i := 0 to |ids|
        invariant Valid() && Enumerates(ids, due) && uow.tasks == Removals(mails, ids[..i])
        invariant mailBox.mails == mails - set k | 0 <= k < i :: ids[k]
      {
        var e := mailBox.Remove(ids[i], uow);
        assert e == Success;
        UnitOfWork.RemovalsMore(mails, ids, i);
      }
      assert ids[..|ids|] == ids;
      ElementsAre(ids, due);
      ticking := uow.tasks;
    }

    method TakeExpired(nowUt: int) returns (ids: seq<int>)
      ensures Distinct(ids) && Enumerates(ids, Expired(mailBox.mails, nowUt))
      ensures Expired(mailBox.mails, nowUt) <= mailBox.mails.Keys
    {
      ids := mailBox.TakeExpiredMailIds(nowUt);
      SameElements(ids, Expired(mailBox.mails, nowUt));
    }

    // The tick's unit of work ends.
    method SendTick() returns (o: Outcome)
      requires Valid() && Lanes.Enabled(View(), Lanes.TickSend)
      modifies this`ticking, this`replica
      ensures Valid() && o == Committed(old(ticking))
      ensures View() == Lanes.Step(overhead, old(View()), Lanes.TickSend)
    {
      o := Committed(ticking);
      replica := Follow(overhead, replica, o);
      ticking := [];
    }
  }
}
