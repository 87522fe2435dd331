// Which positions the client holds and sends: what the login and zone notices, the keys, the tour and
// the mouse make of a frame, and that every move sent carries the position held when it was sent.
module ClientPositions {
  import opened Options
  import opened ZoneGrid
  import opened ClientSpec
  import opened ClientRuns

  // ---- What packets tell the client. ----

  function LastReply(packets: seq<Packet>): Option<bool> {
    if packets == [] then None
    else
      var last := packets[|packets| - 1];
      if last.LoginReply? then Some(last.succeeded) else LastReply(packets[..|packets| - 1])
  }

  function LastZone(packets: seq<Packet>): Option<nat> {
    if packets == [] then None
    else
      var last := packets[|packets| - 1];
      if last.EnterZone? then Some(last.zoneId) else LastZone(packets[..|packets| - 1])
  }

  function Or<T>(a: Option<T>, b: T): T {
    if a.Some? then a.value else b
  }

  lemma {:induction false} ApplyMore(g: Game, packets: seq<Packet>, p: Packet)
    ensures Apply(g, packets + [p]) == Apply(Apply(g, packets), [p])
    decreases |packets|
  {
    if packets == [] {
      assert packets + [p] == [p];
    } else {
      var first := packets[0];
      var g' := match first
                case LoginReply(succeeded) => g.(login := Some(succeeded))
                case EnterZone(zoneId) => g.(entered := true, zoneId := zoneId)
                case Other => g;
      ApplyMore(g', packets[1..], p);
      assert (packets + [p])[1..] == packets[1..] + [p];
    }
  }

  // The latest reply and the latest zone notice count.
  lemma {:induction false} ApplyTellsTheLatest(g: Game, packets: seq<Packet>)
    ensures var g' := Apply(g, packets);
            && g'.login == (if LastReply(packets).Some? then LastReply(packets) else g.login)
            && g'.zoneId == Or(LastZone(packets), g.zoneId)
            && (g'.entered <==> g.entered || LastZone(packets).Some?)
    decreases |packets|
  {
    if packets != [] {
      var n := |packets| - 1;
      ApplyTellsTheLatest(g, packets[..n]);
      ApplyMore(g, packets[..n], packets[n]);
      assert packets[..n] + [packets[n]] == packets && [packets[n]][1..] == [];
    }
  }

  // A frame before the game moves on exactly if the latest reply was a success, or a zone was entered.
  lemma WhatMovesThePhase(grid: Grid, g: Game, input: Input)
    requires !g.phase.InGame?
    ensures var g' := Frame(grid, g, input);
            var reply := if LastReply(input.packets).Some? then LastReply(input.packets) else g.login;
            && (g.phase.Login? ==> g'.phase == if reply == Some(true) then Loading else Login)
            && (g.phase.Loading? ==> g'.phase == if g.entered || LastZone(input.packets).Some? then InGame else Loading)
  {
    hide Apply, Announce, Keys, Steer, SendIfDue, PingIfDue;
    ApplyTellsTheLatest(g, input.packets);
    ApplyOnlyTellsTheWorld(g, input.packets);
  }

  // ---- Where the player is. ----

  function Distance(a: real, b: real): real {
    if a >= b then a - b else b - a
  }

  // Clamping gives the point of the range that is nearest to the one asked for.
  lemma ClampIsNearest(v: real, hi: real, w: real)
    requires hi >= 0.0 && 0.0 <= w <= hi
    ensures 0.0 <= ClampReal(v, hi) <= hi
    ensures Distance(ClampReal(v, hi), v) <= Distance(w, v)
    ensures 0.0 <= v <= hi ==> ClampReal(v, hi) == v
  {
  }

  function ClampX(grid: Grid, x: real): real {
    ClampReal(x, Edge(grid.zonesPerRow, grid.size) - EPSILON)
  }

  function ClampY(grid: Grid, y: real): real {
    ClampReal(y, Edge(grid.rows, grid.size) - EPSILON)
  }

  // The position after a frame's steering, from the tour, the keys, or as it was.
  function Steered(grid: Grid, g: Game, input: Input): (real, real) {
    var touring := if input.f2 && !input.typing then !g.autoTour else g.autoTour;
    if touring then (ClampX(grid, input.tour.0), ClampY(grid, input.tour.1))
    else if input.typing || input.direction == (0.0, 0.0) then (g.x, g.y)
    else
      var delta := MOVE_SPEED * input.elapsed;
      (ClampX(grid, g.x + input.direction.0 * delta), ClampY(grid, g.y + input.direction.1 * delta))
  }

  // `after` is `before` and some of the two packets a frame at `now` can send.
  predicate SentOnly(before: seq<Sent>, after: seq<Sent>, now: real, x: real, y: real) {
    && before <= after
    && forall i :: |before| <= i < |after| ==> after[i] == Move(now, x, y) || after[i] == Ping(now)
  }

  lemma KeysSend(g: Game, input: Input, x: real, y: real)
    ensures var k := Keys(Announce(g), input);
            && SentOnly(g.sent, k.sent, input.now, x, y) && k.x == g.x && k.y == g.y
            && k.phase == g.phase
            && (k.autoTour <==> (if input.f2 && !input.typing then !g.autoTour else g.autoTour))
  {
  }

  lemma SteerHolds(grid: Grid, g: Game, k: Game, input: Input)
    requires k.x == g.x && k.y == g.y
    requires k.autoTour <==> if input.f2 && !input.typing then !g.autoTour else g.autoTour
    ensures var p := Steer(grid, k, input);
            (p.x, p.y) == Steered(grid, g, input) && p.sent == k.sent && p.autoTour == k.autoTour && p.phase == k.phase
  {
    hide ClampReal, Edge;
    var p := Steer(grid, k, input);
    if k.autoTour {
      assert (p.x, p.y) == Steered(grid, g, input);
    } else if input.typing || input.direction == (0.0, 0.0) {
      assert p == k;
      assert (p.x, p.y) == Steered(grid, g, input);
    } else {
      var to := Target(k, input);
      assert p == SetPosition(grid, k, to.0, to.1);
      assert to == Target(g, input);
      assert Steered(grid, g, input) == (ClampX(grid, to.0), ClampY(grid, to.1));
    }
  }

  lemma TailSends(p: Game, now: real)
    ensures var u := PingIfDue(SendIfDue(p, now), now);
            && SentOnly(p.sent, u.sent, now, p.x, p.y) && u.x == p.x && u.y == p.y
            && u.autoTour == p.autoTour && u.phase == p.phase
  {
    hide Due;
  }

  // What one in-game frame puts on the wire, behind what was sent before: moves with the frame's time
  // and the position after steering, and pings with the frame's time. And where the player is then:
  // there, or where the mouse clicked.
  lemma FrameSends(grid: Grid, g: Game, input: Input)
    requires g.phase.InGame?
    ensures var g', held := Frame(grid, g, input), Steered(grid, g, input);
            && SentOnly(g.sent, g'.sent, input.now, held.0, held.1)
            && (g'.x, g'.y) == (if input.click.None? then held
                                else (ClampX(grid, input.click.value.0), ClampY(grid, input.click.value.1)))
            && (g'.autoTour <==> (if input.f2 && !input.typing then !g.autoTour else g.autoTour))
  {
    hide Apply, ClampReal, Edge, Due, Keys, Announce, Steer, SendIfDue, PingIfDue, Steered;
    ApplyOnlyTellsTheWorld(g, input.packets);
    var held, a := Steered(grid, g, input), Apply(g, input.packets);
    KeysSend(a, input, held.0, held.1);
    var k := Keys(Announce(a), input);
    SteerHolds(grid, g, k, input);
    var p := Steer(grid, k, input);
    TailSends(p, input.now);
    assert Update(grid, g, input) == PingIfDue(SendIfDue(p, input.now), input.now);
  }

  lemma PreGameSendsNothing(grid: Grid, g: Game, input: Input)
    requires !g.phase.InGame?
    ensures Frame(grid, g, input).sent == g.sent
  {
    hide Apply, Announce, Keys, Steer, SendIfDue, PingIfDue, ClampReal, Edge;
    ApplyOnlyTellsTheWorld(g, input.packets);
  }

  // Every move that a frame of a run sends carries the frame's time and the position held after that
  // frame's steering.
  lemma MovesCarryThePosition(grid: Grid, gs: seq<Game>, ins: seq<Input>, k: nat, i: nat)
    requires Run(grid, gs, ins) && k < |ins| && |gs[k].sent| <= i < |gs[k + 1].sent| && gs[k + 1].sent[i].Move?
    ensures gs[k].phase.InGame?
    ensures gs[k + 1].sent[i] == Move(ins[k].now, Steered(grid, gs[k], ins[k]).0, Steered(grid, gs[k], ins[k]).1)
    ensures ins[k].click.None? ==> gs[k + 1].sent[i] == Move(ins[k].now, gs[k + 1].x, gs[k + 1].y)
  {
    hide Frame, Steered;
    FrameAt(grid, gs, ins, k);
    if gs[k].phase.InGame? {
      FrameSends(grid, gs[k], ins[k]);
    } else {
      PreGameSendsNothing(grid, gs[k], ins[k]);
    }
  }

  lemma {:induction false} NoNewMove(before: seq<Sent>, after: seq<Sent>)
    requires before <= after && forall i :: |before| <= i < |after| ==> !after[i].Move?
    ensures MoveTimes(after) == MoveTimes(before)
    decreases |after|
  {
    if |before| < |after| {
      NoNewMove(before, after[..|after| - 1]);
    } else {
      assert before == after;
    }
  }

  ghost predicate SentIn(before: seq<Sent>, after: seq<Sent>, s: Sent) {
    exists i :: |before| <= i < |after| && after[i] == s
  }

  // A move sent with the position held then, less than 0.05 + d seconds after frame k.
  ghost predicate AnsweredWithPosition(grid: Grid, gs: seq<Game>, ins: seq<Input>, d: real, k: nat, m: nat)
    requires k <= m < |ins| && |gs| == |ins| + 1
  {
    exists j :: k <= j <= m && SentIn(gs[j].sent, gs[j + 1].sent, MoveHeld(grid, gs[j], ins[j])) &&
                ins[j].now < ins[k].now + MOVE_SEND_INTERVAL + d
  }

  function MoveHeld(grid: Grid, g: Game, input: Input): Sent {
    Move(input.now, Steered(grid, g, input).0, Steered(grid, g, input).1)
  }

  lemma SomeMoveIsSent(before: seq<Sent>, after: seq<Sent>, now: real, x: real, y: real)
    requires SentOnly(before, after, now, x, y) && MoveTimes(after) == MoveTimes(before) + [now]
    ensures SentIn(before, after, Move(now, x, y))
  {
    hide MoveTimes;
    if !SentIn(before, after, Move(now, x, y)) {
      NoNewMove(before, after);
    }
  }

  // The move that answers a zone change carries the position held when it is sent.
  lemma ZoneChangesAreAnsweredWithThePosition(grid: Grid, gs: seq<Game>, ins: seq<Input>, d: real, k: nat, m: nat)
    requires Roomy(grid) && Run(grid, gs, ins) && Steady(ins, d) && d >= 0.0 && k <= m < |ins|
    requires gs[k].phase.InGame? && ZoneUnannounced(Apply(gs[k], ins[k].packets))
    requires ins[m].now >= ins[k].now + MOVE_SEND_INTERVAL
    ensures AnsweredWithPosition(grid, gs, ins, d, k, m)
  {
    hide Frame, Steered, Apply, ZoneUnannounced, Roomy;
    ZoneChangesAreAnnounced(grid, gs, ins, d, k, m);
    var j :| k <= j <= m && MoveSent(gs[j], gs[j + 1], ins[j].now) &&
             ins[j].now < ins[k].now + MOVE_SEND_INTERVAL + d;
    FrameAt(grid, gs, ins, j);
    if gs[j].phase.InGame? {
      FrameSends(grid, gs[j], ins[j]);
    } else {
      PreGameSendsNothing(grid, gs[j], ins[j]);
    }
    assert SentIn(gs[j].sent, gs[j + 1].sent, MoveHeld(grid, gs[j], ins[j])) by {
      SomeMoveIsSent(gs[j].sent, gs[j + 1].sent, ins[j].now,
                     Steered(grid, gs[j], ins[j]).0, Steered(grid, gs[j], ins[j]).1);
    }
  }

  // ---- Walking. ----

  function TotalElapsed(ins: seq<Input>): real {
    if ins == [] then 0.0 else TotalElapsed(ins[..|ins| - 1]) + ins[|ins| - 1].elapsed
  }

  lemma TotalElapsedMore(ins: seq<Input>, i: nat, k: nat)
    requires i < k <= |ins|
    ensures TotalElapsed(ins[i..k]) == TotalElapsed(ins[i..k - 1]) + ins[k - 1].elapsed
  {
    assert ins[i..k][..k - i - 1] == ins[i..k - 1];
  }

  // The frame is walked in the given direction, and the walls are out of reach.
  predicate Walks(grid: Grid, g: Game, input: Input, direction: (real, real)) {
    && g.phase.InGame? && !g.autoTour && !input.f2 && !input.typing && input.click.None?
    && input.direction == direction && direction != (0.0, 0.0)
    && InClampedWorld(grid, g.x + direction.0 * (MOVE_SPEED * input.elapsed),
                      g.y + direction.1 * (MOVE_SPEED * input.elapsed))
  }

  // Holding a direction from frame i to frame k moves the player that way at 30 units a second.
  lemma {:induction false} WalkingIsSteady(grid: Grid, gs: seq<Game>, ins: seq<Input>, direction: (real, real),
                                           i: nat, k: nat)
    requires Run(grid, gs, ins) && i <= k <= |ins|
    requires forall j :: i <= j < k ==> Walks(grid, gs[j], ins[j], direction)
    ensures gs[k].x == gs[i].x + direction.0 * (MOVE_SPEED * TotalElapsed(ins[i..k]))
    ensures gs[k].y == gs[i].y + direction.1 * (MOVE_SPEED * TotalElapsed(ins[i..k]))
    decreases k
  {
    hide Frame, Walks, Steered;
    if k == i {
      assert ins[i..k] == [];
    } else {
      WalkingIsSteady(grid, gs, ins, direction, i, k - 1);
      FrameAt(grid, gs, ins, k - 1);
      OneFrameWalks(grid, gs[k - 1], ins[k - 1], direction);
      TotalElapsedMore(ins, i, k);
      Spread(direction.0, TotalElapsed(ins[i..k - 1]), ins[k - 1].elapsed);
      Spread(direction.1, TotalElapsed(ins[i..k - 1]), ins[k - 1].elapsed);
    }
  }

  lemma OneFrameWalks(grid: Grid, g: Game, input: Input, direction: (real, real))
    requires Walks(grid, g, input, direction)
    ensures Frame(grid, g, input).x == g.x + direction.0 * (MOVE_SPEED * input.elapsed)
    ensures Frame(grid, g, input).y == g.y + direction.1 * (MOVE_SPEED * input.elapsed)
  {
    hide Frame, Edge;
    FrameSends(grid, g, input);
  }

  lemma Spread(c: real, a: real, b: real)
    ensures c * (MOVE_SPEED * (a + b)) == c * (MOVE_SPEED * a) + c * (MOVE_SPEED * b)
  {
  }

  // ---- Pings. ----

  function LastPing(sent: seq<Sent>): Option<real> {
    if sent == [] then None
    else
      var last := sent[|sent| - 1];
      if last.Ping? then Some(last.at) else LastPing(sent[..|sent| - 1])
  }

  lemma LastPingMore(sent: seq<Sent>, s: Sent)
    ensures LastPing(sent + [s]) == if s.Ping? then Some(s.at) else LastPing(sent)
  {
    assert (sent + [s])[..|sent|] == sent;
  }

  predicate Stamped(g: Game) {
    g.pingSentAt == LastPing(g.sent)
  }

  lemma KeysStamp(g: Game, input: Input)
    requires Stamped(g)
    ensures Stamped(Keys(Announce(g), input))
  {
    LastPingMore(g.sent, Ping(input.now));
  }

  lemma SendsStamp(g: Game, now: real)
    requires Stamped(g)
    ensures Stamped(PingIfDue(SendIfDue(g, now), now))
  {
    hide Due, LastPing;
    LastPingMore(g.sent, Move(now, g.x, g.y));
    var s := SendIfDue(g, now);
    LastPingMore(s.sent, Ping(now));
  }

  lemma FrameStampsPings(grid: Grid, g: Game, input: Input)
    requires Stamped(g)
    ensures Stamped(Frame(grid, g, input))
  {
    hide Apply, LastPing, ClampReal, Edge, Due, Keys, Announce, SendIfDue, PingIfDue;
    ApplyOnlyTellsTheWorld(g, input.packets);
    var a := Apply(g, input.packets);
    if g.phase.InGame? {
      KeysStamp(a, input);
      SendsStamp(Steer(grid, Keys(Announce(a), input), input), input.now);
    }
  }

  // The ping stamp is the time of the last ping that was sent, in every run.
  lemma {:induction false} PingsAreSent(grid: Grid, gs: seq<Game>, ins: seq<Input>, k: nat)
    requires Run(grid, gs, ins) && k <= |ins|
    ensures Stamped(gs[k])
    decreases k
  {
    hide Frame;
    if k > 0 {
      PingsAreSent(grid, gs, ins, k - 1);
      FrameAt(grid, gs, ins, k - 1);
      FrameStampsPings(grid, gs[k - 1], ins[k - 1]);
    }
  }
}
