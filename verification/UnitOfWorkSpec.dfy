// A unit of work over a player's mailbox and wallet: the recorded changes, what replaying them
// does, and what undoing them in reverse restores.
module UnitOfWorkSpec {
  import opened Sets
  import opened LittleEndian
  import opened TaskStream
  import opened TaskStreamLaws
  import opened Delivery

  const GOLD: Byte := 1
  const NO_EXPIRE: int := 0x7FFF_FFFF_FFFF_FFFF
  const MAX_MAIL_COUNT: nat := 100
  const MAX_TITLE_BYTES: nat := 128
  const MAX_BODY_BYTES: nat := 1024
  const NO_MAIL := MailInfo(0, [], [], 0, 0)

  datatype ErrorCode =
    | Success | MailBoxNotFound | MailNotFound | MailAlreadyExists | MailBoxFull | MailTextTooLong
    | NotEnoughCurrency | UnknownCurrencyType | InvalidCurrencyAmount

  // int64_t.
  type Signed64 = i: int | Int64(i)

  datatype PlayerState = PlayerState(mails: map<int, MailInfo>, gold: int)

  // ---- What a recorded task says was done. ----

  predicate Applies(s: PlayerState, t: Task) {
    match t
    case AddMail(m, p) => m.mailId !in s.mails && p == NO_MAIL
    case RemoveMail(n, m) => m.mailId in s.mails && s.mails[m.mailId] == m && n == NO_MAIL
    case UpdateCurrency(kind, n, p) => kind == GOLD && p == s.gold && 0 <= n != p
  }

  function Do(s: PlayerState, t: Task): PlayerState {
    match t
    case AddMail(m, _) => s.(mails := s.mails[m.mailId := m])
    case RemoveMail(_, m) => s.(mails := s.mails - {m.mailId})
    case UpdateCurrency(_, n, _) => s.(gold := n)
  }

  lemma {:induction false} AllApplyIsOfGold(s: PlayerState, ts: seq<Task>)
    requires AllApply(s, ts)
    ensures forall i :: 0 <= i < |ts| && ts[i].UpdateCurrency? ==> ts[i].kind == GOLD
    decreases |ts|
  {
    if ts != [] {
      AllApplyIsOfGold(Do(s, ts[0]), ts[1..]);
      assert forall i :: 1 <= i < |ts| ==> ts[i] == ts[1..][i - 1];
    }
  }

  predicate AllApply(s: PlayerState, ts: seq<Task>)
    decreases |ts|
  {
    ts == [] || (Applies(s, ts[0]) && AllApply(Do(s, ts[0]), ts[1..]))
  }

  function Replay(s: PlayerState, ts: seq<Task>): PlayerState
    decreases |ts|
  {
    if ts == [] then s else Replay(Do(s, ts[0]), ts[1..])
  }

  lemma {:induction false} RecordMore(s: PlayerState, ts: seq<Task>, t: Task)
    requires AllApply(s, ts) && Applies(Replay(s, ts), t)
    ensures AllApply(s, ts + [t]) && Replay(s, ts + [t]) == Do(Replay(s, ts), t)
    decreases |ts|
  {
    hide Applies, Do;
    if ts != [] {
      RecordMore(Do(s, ts[0]), ts[1..], t);
      assert (ts + [t])[1..] == ts[1..] + [t];
    } else {
      assert ts + [t] == [t];
    }
  }

  lemma OneTask(s: PlayerState, t: Task)
    ensures Replay(s, [t]) == Do(s, t) && StreamBytes([t]) == TaskBytes(t)
  {
    assert [t][0] == t && [t][1..] == [];
  }

  // ---- Undoing. ----

  // Player::RollbackUoW for one task: the model's ordinary operation in the other direction. When
  // that operation refuses, the state stays as it is.
  function Undo(s: PlayerState, t: Task): PlayerState {
    match t
    case AddMail(m, _) => s.(mails := s.mails - {m.mailId})
    case RemoveMail(_, m) => if m.mailId in s.mails then s else s.(mails := s.mails[m.mailId := m])
    case UpdateCurrency(kind, _, p) => if kind != GOLD || p < 0 then s else s.(gold := p)
  }

  function Rollback(s: PlayerState, ts: seq<Task>): PlayerState
    decreases |ts|
  {
    if ts == [] then s else Rollback(Undo(s, ts[|ts| - 1]), ts[..|ts| - 1])
  }

  lemma {:induction false} RollbackFirstLast(s: PlayerState, ts: seq<Task>)
    requires ts != []
    ensures Rollback(s, ts) == Undo(Rollback(s, ts[1..]), ts[0])
    decreases |ts|
  {
    hide Undo;
    if |ts| == 1 {
      assert ts[..0] == [] && ts[1..] == [];
    } else {
      var n := |ts| - 1;
      RollbackFirstLast(Undo(s, ts[n]), ts[..n]);
      assert ts[..n][1..] == ts[1..][..n - 1] && ts[1..][n - 1] == ts[n];
    }
  }

  lemma UndoDo(s: PlayerState, t: Task)
    requires Applies(s, t)
    ensures Undo(Do(s, t), t) == s <==> s.gold >= 0 || !t.UpdateCurrency?
    ensures t.UpdateCurrency? ==> Do(s, t).gold >= 0
    ensures !t.UpdateCurrency? ==> Do(s, t).gold == s.gold
  {
  }

  predicate ChangesCurrency(ts: seq<Task>) {
    exists i :: 0 <= i < |ts| && ts[i].UpdateCurrency?
  }

  // Undoing the recorded tasks in reverse restores the player exactly, if and only if the gold was
  // not negative to begin with or was never changed: setting a balance refuses negative values.
  lemma {:induction false} RollbackRestores(s: PlayerState, ts: seq<Task>)
    requires AllApply(s, ts)
    ensures Rollback(Replay(s, ts), ts) == s <==> s.gold >= 0 || !ChangesCurrency(ts)
    ensures s.gold < 0 && ChangesCurrency(ts) ==> Rollback(Replay(s, ts), ts).gold >= 0
    decreases |ts|
  {
    hide Applies, Do, Undo;
    if ts != [] {
      var s1, rest := Do(s, ts[0]), ts[1..];
      UndoDo(s, ts[0]);
      RollbackRestores(s1, rest);
      var end := Replay(s, ts);
      RollbackFirstLast(end, ts);
      CurrencySplit(ts);
      if s1.gold < 0 && ChangesCurrency(rest) {
        UndoMailKeepsGold(Rollback(end, rest), ts[0]);
      } else if s.gold < 0 && ts[0].UpdateCurrency? {
        UndoFails(s, ts[0]);
      }
    }
  }

  // The limit of the model operations, taken by themselves: undoing a change of a negative balance
  // leaves the changed balance.
  lemma NegativeBalanceIsNotRestored(mails: map<int, MailInfo>)
    ensures var start, tasks := PlayerState(mails, -5), [UpdateCurrency(GOLD, 5, -5)];
            AllApply(start, tasks) && Rollback(Replay(start, tasks), tasks).gold == 5
  {
  }

  lemma CurrencySplit(ts: seq<Task>)
    requires ts != []
    ensures ChangesCurrency(ts) <==> ts[0].UpdateCurrency? || ChangesCurrency(ts[1..])
  {
  }

  lemma UndoMailKeepsGold(s: PlayerState, t: Task)
    requires !t.UpdateCurrency?
    ensures Undo(s, t).gold == s.gold
  {
  }

  lemma UndoFails(s: PlayerState, t: Task)
    requires Applies(s, t) && t.UpdateCurrency? && s.gold < 0
    ensures Undo(Do(s, t), t).gold >= 0
  {
  }

  // ---- Sessions. ----

  // How a unit of work ends: undone with an error, unnoticed, or sent with its tasks.
  datatype Outcome = RolledBack(error: ErrorCode) | Unchanged | Committed(tasks: seq<Task>)

  // A request or tick leaves the player as it was, or changed as the tasks it commits say.
  predicate Served(s: PlayerState, o: Outcome, s': PlayerState) {
    if o.Committed? then AllApply(s, o.tasks) && s' == Replay(s, o.tasks) && s' != s else s' == s
  }

  lemma RolledBackIsServed(s: PlayerState, e: ErrorCode)
    ensures Served(s, RolledBack(e), s)
  {
  }

  // The packet of a commit, if there is one, is within the limit.
  predicate Arrives(overhead: nat, o: Outcome) {
    o.Committed? ==> Fits(overhead, o.tasks)
  }

  // A receiver applies the tasks of whatever arrives: it puts mails in, takes them out and sets balances.
  function Follow(overhead: nat, r: PlayerState, o: Outcome): PlayerState {
    if o.Committed? && Fits(overhead, o.tasks) then Replay(r, o.tasks) else r
  }

  function TasksOf(o: Outcome): seq<Task> {
    if o.Committed? then o.tasks else []
  }

  // Everything committed, in order.
  function AllCommitted(os: seq<Outcome>): seq<Task> {
    if os == [] then [] else AllCommitted(os[..|os| - 1]) + TasksOf(os[|os| - 1])
  }

  lemma {:induction false} ReplayConcat(s: PlayerState, a: seq<Task>, b: seq<Task>)
    requires AllApply(s, a) && AllApply(Replay(s, a), b)
    ensures AllApply(s, a + b) && Replay(s, a + b) == Replay(Replay(s, a), b)
    decreases |b|
  {
    hide Applies, Do;
    if b == [] {
      assert a + b == a;
    } else {
      RecordMore(s, a, b[0]);
      ReplayConcat(s, a + [b[0]], b[1..]);
      assert a + [b[0]] + b[1..] == a + b;
    }
  }

  lemma {:induction false} ReplayKeepsGoldNonNegative(s: PlayerState, ts: seq<Task>)
    requires AllApply(s, ts) && s.gold >= 0
    ensures Replay(s, ts).gold >= 0
    decreases |ts|
  {
    if ts != [] {
      UndoDo(s, ts[0]);
      ReplayKeepsGoldNonNegative(Do(s, ts[0]), ts[1..]);
    }
  }

  // A receiver in step before a request is in step after it if and only if the commit fits its packet.
  lemma InStepIffArrives(overhead: nat, s: PlayerState, o: Outcome, s': PlayerState)
    requires Served(s, o, s')
    ensures Follow(overhead, s, o) == s' <==> Arrives(overhead, o)
  {
  }

  // What a receiver has, moment by moment.
  function Replicas(overhead: nat, r: PlayerState, os: seq<Outcome>): (rs: seq<PlayerState>)
    ensures |rs| == |os| + 1
  {
    if os == [] then [r]
    else
      var rs := Replicas(overhead, r, os[..|os| - 1]);
      rs + [Follow(overhead, rs[|os| - 1], os[|os| - 1])]
  }

  ghost predicate ServedInTurn(ss: seq<PlayerState>, os: seq<Outcome>) {
    |ss| == |os| + 1 && forall i :: 0 <= i < |os| ==> Served(ss[i], os[i], ss[i + 1])
  }

  ghost predicate AllArrive(overhead: nat, os: seq<Outcome>) {
    forall i :: 0 <= i < |os| ==> Arrives(overhead, os[i])
  }

  // Over a session of requests and ticks one after the other, whatever was refused or rolled back: a
  // receiver that starts in step is in step at every moment if and only if every commit fits.
  lemma {:induction false} SessionFollows(overhead: nat, ss: seq<PlayerState>, os: seq<Outcome>)
    requires ServedInTurn(ss, os)
    ensures Replicas(overhead, ss[0], os) == ss <==> AllArrive(overhead, os)
    decreases |os|
  {
    hide Served, Follow, Arrives;
    if os != [] {
      var n := |os| - 1;
      SessionFollows(overhead, ss[..n + 1], os[..n]);
      InStepIffArrives(overhead, ss[n], os[n], ss[n + 1]);
      var rs := Replicas(overhead, ss[0], os);
      assert rs[..n + 1] == Replicas(overhead, ss[0], os[..n]);
      assert rs == ss <==> rs[..n + 1] == ss[..n + 1] && rs[n + 1] == ss[n + 1] by {
        assert rs == rs[..n + 1] + [rs[n + 1]] && ss == ss[..n + 1] + [ss[n + 1]];
      }
      assert AllArrive(overhead, os) <==> AllArrive(overhead, os[..n]) && Arrives(overhead, os[n]) by {
        assert forall i :: 0 <= i < n ==> os[..n][i] == os[i];
      }
    }
  }

  // The record of a session is complete whether or not it arrives, and a balance that was loaded
  // non-negative has been non-negative throughout.
  lemma {:induction false} SessionIsRecorded(ss: seq<PlayerState>, os: seq<Outcome>)
    requires ServedInTurn(ss, os)
    ensures AllApply(ss[0], AllCommitted(os)) && ss[|os|] == Replay(ss[0], AllCommitted(os))
    ensures ss[0].gold >= 0 ==> forall i :: 0 <= i < |ss| ==> ss[i].gold >= 0
    decreases |os|
  {
    if os != [] {
      hide AllApply, Replay;
      var n := |os| - 1;
      SessionIsRecorded(ss[..n + 1], os[..n]);
      assert Served(ss[n], os[n], ss[n + 1]);
      if os[n].Committed? {
        ReplayConcat(ss[0], AllCommitted(os[..n]), os[n].tasks);
        if ss[0].gold >= 0 {
          assert ss[..n + 1][n] == ss[n];
          ReplayKeepsGoldNonNegative(ss[n], os[n].tasks);
        }
      } else {
        assert AllCommitted(os) == AllCommitted(os[..n]);
      }
      assert forall i :: 0 <= i < |ss| - 1 ==> ss[i] == ss[..n + 1][i];
    }
  }

  // ---- How much a tick has to send. ----

  function MailBytes(m: MailInfo): nat {
    TaskBytes(RemoveMail(NO_MAIL, m))
  }

  function Expired(mails: map<int, MailInfo>, nowUt: int): set<int> {
    set id | id in mails && mails[id].endUt <= nowUt
  }

  ghost function SetBytes(mails: map<int, MailInfo>, ids: set<int>): nat
    requires ids <= mails.Keys
  {
    if ids == {} then 0
    else
      var id := OneOf(ids);
      MailBytes(mails[id]) + SetBytes(mails, ids - {id})
  }

  // The order in which the mails are counted does not matter.
  lemma {:induction false} SetBytesMinus(mails: map<int, MailInfo>, ids: set<int>, id: int)
    requires ids <= mails.Keys && id in ids
    ensures SetBytes(mails, ids) == MailBytes(mails[id]) + SetBytes(mails, ids - {id})
    decreases |ids|
  {
    hide MailBytes;
    var first := OneOf(ids);
    if first != id {
      SetBytesMinus(mails, ids - {first}, id);
      SetBytesMinus(mails, ids - {id}, first);
      assert ids - {first} - {id} == ids - {id} - {first};
    }
  }

  // The bytes of all the mails that are due.
  ghost function ExpiredBytes(mails: map<int, MailInfo>, nowUt: int): nat {
    SetBytes(mails, Expired(mails, nowUt))
  }

  function Removals(mails: map<int, MailInfo>, ids: seq<int>): seq<Task>
    requires forall i :: 0 <= i < |ids| ==> ids[i] in mails
  {
    seq(|ids|, i requires 0 <= i < |ids| => RemoveMail(NO_MAIL, mails[ids[i]]))
  }

  predicate Distinct(ids: seq<int>) {
    forall i, j :: 0 <= i < j < |ids| ==> ids[i] != ids[j]
  }

  predicate Enumerates(ids: seq<int>, due: set<int>) {
    (forall i :: 0 <= i < |ids| ==> ids[i] in due) && forall id :: id in due ==> id in ids
  }

  lemma SameElements(ids: seq<int>, due: set<int>)
    requires forall id :: id in ids <==> id in due
    ensures Enumerates(ids, due)
  {
    forall i | 0 <= i < |ids|
      ensures ids[i] in due
    {
      var id := ids[i];
      assert id in ids;
    }
  }

  lemma ElementsAre(ids: seq<int>, due: set<int>)
    requires Enumerates(ids, due)
    ensures (set k | 0 <= k < |ids| :: ids[k]) == due
  {
    var elements := set k | 0 <= k < |ids| :: ids[k];
    forall id | id in due
      ensures id in elements
    {
      var k :| 0 <= k < |ids| && ids[k] == id;
    }
  }

  // Removing mails takes as many bytes as they have, in whatever order.
  lemma {:induction false} RemovalBytes(mails: map<int, MailInfo>, ids: seq<int>, due: set<int>)
    requires due <= mails.Keys && Distinct(ids) && Enumerates(ids, due)
    ensures StreamBytes(Removals(mails, ids)) == SetBytes(mails, due)
    decreases |ids|
  {
    hide MailBytes, TaskBytes;
    if ids == [] {
      assert forall id :: id !in due;
    } else {
      var id, rest := ids[0], ids[1..];
      assert Enumerates(rest, due - {id}) by {
        assert forall i :: 0 <= i < |rest| ==> rest[i] == ids[i + 1];
        assert forall x :: x in ids ==> x == id || x in rest;
      }
      RemovalBytes(mails, rest, due - {id});
      SetBytesMinus(mails, due, id);
      assert Removals(mails, ids)[1..] == Removals(mails, rest);
      assert MailBytes(mails[id]) == TaskBytes(Removals(mails, ids)[0]) by { IsMailBytes(mails[id]); }
    }
  }

  lemma IsMailBytes(m: MailInfo)
    ensures MailBytes(m) == TaskBytes(RemoveMail(NO_MAIL, m))
  {
  }

  predicate TextTooLong(title: seq<Byte>, body: seq<Byte>) {
    |title| > MAX_TITLE_BYTES || |body| > MAX_BODY_BYTES
  }

  // A mail read from the database, whose columns hold 128 and 1024 characters of at most three bytes
  // each, can always be removed by itself.
  lemma StoredMailCanBeRemoved(s: PlayerState, m: MailInfo)
    requires |m.title| <= 3 * MAX_TITLE_BYTES && |m.body| <= 3 * MAX_BODY_BYTES
    ensures Fits(CLIENT_OVERHEAD, [RemoveMail(NO_MAIL, m)])
  {
    OneTask(s, RemoveMail(NO_MAIL, m));
  }

  const FULL_MAIL_BYTES: nat := 34 + MAX_TITLE_BYTES + MAX_BODY_BYTES

  lemma {:induction false} SetBytesBound(mails: map<int, MailInfo>, ids: set<int>)
    requires ids <= mails.Keys && forall id :: id in ids ==> !TextTooLong(mails[id].title, mails[id].body)
    ensures SetBytes(mails, ids) <= FULL_MAIL_BYTES * |ids|
    ensures (forall id :: id in ids ==> MailBytes(mails[id]) == FULL_MAIL_BYTES) ==>
              SetBytes(mails, ids) == FULL_MAIL_BYTES * |ids|
    decreases |ids|
  {
    if ids != {} {
      var id := OneOf(ids);
      SetBytesBound(mails, ids - {id});
    }
  }

  // Up to six mails of the lengths a request allows can always be removed at once; seven of them may
  // reach neither the client nor the world server.
  lemma SixMailsFitSevenMayNot()
    ensures forall mails: map<int, MailInfo>, nowUt ::
              (forall id :: id in mails ==> !TextTooLong(mails[id].title, mails[id].body)) &&
              |Expired(mails, nowUt)| <= 6 ==>
              CLIENT_OVERHEAD + ExpiredBytes(mails, nowUt) <= MAX_BODY
    ensures exists mails: map<int, MailInfo>, nowUt ::
              && MailsOk(mails) && |Expired(mails, nowUt)| == 7
              && (forall id :: id in mails ==> !TextTooLong(mails[id].title, mails[id].body))
              && WORLD_OVERHEAD + ExpiredBytes(mails, nowUt) > MAX_BODY
  {
    hide MailBytes;
    forall mails: map<int, MailInfo>, nowUt |
      (forall id :: id in mails ==> !TextTooLong(mails[id].title, mails[id].body)) &&
      |Expired(mails, nowUt)| <= 6
      ensures CLIENT_OVERHEAD + ExpiredBytes(mails, nowUt) <= MAX_BODY
    {
      SetBytesBound(mails, Expired(mails, nowUt));
    }
    var mails := SevenFullMails();
    assert WORLD_OVERHEAD + ExpiredBytes(mails, 0) > MAX_BODY;
  }

  lemma SevenFullMails() returns (mails: map<int, MailInfo>)
    ensures MailsOk(mails) && |Expired(mails, 0)| == 7
    ensures forall id :: id in mails ==> !TextTooLong(mails[id].title, mails[id].body)
    ensures ExpiredBytes(mails, 0) == 7 * FULL_MAIL_BYTES
  {
    var title, body := seq(MAX_TITLE_BYTES, _ => 0 as Byte), seq(MAX_BODY_BYTES, _ => 0 as Byte);
    var ids := {1, 2, 3, 4, 5, 6, 7};
    mails := map id | id in ids :: MailInfo(id, title, body, 0, 0);
    assert Expired(mails, 0) == ids && |ids| == 7;
    SetBytesBound(mails, ids);
  }

  // ---- The earliest expiry, cached. ----

  ghost predicate IsNextExpire(mails: map<int, MailInfo>, next: int) {
    && next <= NO_EXPIRE
    && (forall id :: id in mails ==> next <= mails[id].endUt)
    && (next == NO_EXPIRE || exists id :: id in mails && mails[id].endUt == next)
  }

  ghost predicate MailsOk(mails: map<int, MailInfo>) {
    forall id :: id in mails ==> mails[id].mailId == id && MailInRange(mails[id])
  }

  // Equal mailboxes have equal caches, so restoring the mails restores the cache.
  lemma NextExpireUnique(mails: map<int, MailInfo>, a: int, b: int)
    requires MailsOk(mails) && IsNextExpire(mails, a) && IsNextExpire(mails, b)
    ensures a == b
  {
  }

  // The one comparison of every tick decides whether some mail has expired.
  lemma HasExpiredIffSomeMailHas(mails: map<int, MailInfo>, next: int, now: int)
    requires MailsOk(mails) && IsNextExpire(mails, next) && now < NO_EXPIRE
    ensures now >= next <==> exists id :: id in mails && mails[id].endUt <= now
  {
  }
}
