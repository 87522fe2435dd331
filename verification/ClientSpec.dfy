// One frame of the visual client as a function on its state, and what every run of frames keeps.
// Times are seconds and coordinates are reals; None stands for double.NegativeInfinity.
module ClientSpec {
  import opened Options
  import opened ZoneGrid

  const MOVE_SPEED := 30.0
  const MOVE_SEND_INTERVAL := 0.05
  const PING_INTERVAL := 1.0
  const HEARTBEAT_INTERVAL := 1.0
  const EPSILON := 0.001
  const START := 5.0

  datatype Phase = Login | Loading | InGame

  // The packets that touch the scheduler's state.
  datatype Packet = LoginReply(succeeded: bool) | EnterZone(zoneId: nat) | Other

  datatype Sent = Move(at: real, x: real, y: real) | Ping(at: real)

  // What the outside world supplies in one frame: the clock, received packets, keys, and the mouse.
  // `direction` is the normalised key direction, `tour` the auto-tour target; both are arbitrary.
  datatype Input = Input(
    now: real, elapsed: real, packets: seq<Packet>,
    f1: bool, f2: bool, typing: bool, direction: (real, real), tour: (real, real),
    loginSubmitted: bool, click: Option<(real, real)>)

  datatype Game = Game(
    phase: Phase,
    login: Option<bool>, entered: bool, zoneId: nat,          // WorldModel
    moveDirty: bool, moveSentAt: Option<real>, pingSentAt: Option<real>,
    announced: bool, announcedZoneId: nat,
    x: real, y: real, autoTour: bool,
    sent: seq<Sent>)

  function Start(autoTour: bool): Game {
    Game(Login, None, false, 0, false, None, None, false, 0, START, START, autoTour, [])
  }

  predicate Due(at: Option<real>, now: real, interval: real) {
    at.None? || now - at.value >= interval
  }

  function Apply(g: Game, packets: seq<Packet>): Game
    decreases |packets|
  {
    if packets == [] then g
    else
      var g' := match packets[0]
                case LoginReply(succeeded) => g.(login := Some(succeeded))
                case EnterZone(zoneId) => g.(entered := true, zoneId := zoneId)
                case Other => g;
      Apply(g', packets[1..])
  }

  function UpdateLogin(g: Game): Game {
    if g.login.None? then g
    else g.(login := None, phase := if g.login.value then Loading else g.phase)
  }

  function UpdateLoading(g: Game): Game {
    if g.entered then g.(phase := InGame) else g
  }

  // The zone has changed since it was last announced.
  predicate ZoneUnannounced(g: Game) {
    g.entered && !(g.announced && g.zoneId == g.announcedZoneId)
  }

  function Announce(g: Game): Game {
    if ZoneUnannounced(g) then g.(announced := true, announcedZoneId := g.zoneId, moveDirty := true) else g
  }

  function SendPing(g: Game, now: real): Game {
    g.(sent := g.sent + [Ping(now)], pingSentAt := Some(now))
  }

  function Keys(g: Game, input: Input): Game {
    var g' := if input.f1 then SendPing(g, input.now) else g;
    if input.f2 && !input.typing then g'.(autoTour := !g'.autoTour) else g'
  }

  function ClampReal(v: real, hi: real): real {
    if v < 0.0 then 0.0 else if v > hi then hi else v
  }

  function SetPosition(grid: Grid, g: Game, x: real, y: real): Game {
    g.(x := ClampReal(x, Edge(grid.zonesPerRow, grid.size) - EPSILON),
       y := ClampReal(y, Edge(grid.rows, grid.size) - EPSILON),
       moveDirty := true)
  }

  // Where the keys ask to go.
  function Target(g: Game, input: Input): (real, real) {
    var delta := MOVE_SPEED * input.elapsed;
    (g.x + input.direction.0 * delta, g.y + input.direction.1 * delta)
  }

  function Steer(grid: Grid, g: Game, input: Input): Game {
    if g.autoTour then SetPosition(grid, g, input.tour.0, input.tour.1)
    else if !input.typing && input.direction != (0.0, 0.0) then
      SetPosition(grid, g, Target(g, input).0, Target(g, input).1)
    else g
  }

  function SendIfDue(g: Game, now: real): Game {
    var dirty := g.moveDirty || (g.entered && Due(g.moveSentAt, now, HEARTBEAT_INTERVAL));
    if dirty && Due(g.moveSentAt, now, MOVE_SEND_INTERVAL) then
      g.(sent := g.sent + [Move(now, g.x, g.y)], moveSentAt := Some(now), moveDirty := false)
    else
      g.(moveDirty := dirty)
  }

  function PingIfDue(g: Game, now: real): Game {
    if Due(g.pingSentAt, now, PING_INTERVAL) then SendPing(g, now) else g
  }

  function Update(grid: Grid, g: Game, input: Input): Game {
    var g := Apply(g, input.packets);
    match g.phase
    case Login => UpdateLogin(g)
    case Loading => UpdateLoading(g)
    case InGame => PingIfDue(SendIfDue(Steer(grid, Keys(Announce(g), input), input), input.now), input.now)
  }

  // Draw: submitting the login form forgets the last reply; a click in the zone view moves.
  function Draw(grid: Grid, g: Game, input: Input): Game {
    if g.phase == Login && input.loginSubmitted then g.(login := None)
    else if g.phase == InGame && input.click.Some? then SetPosition(grid, g, input.click.value.0, input.click.value.1)
    else g
  }

  function Frame(grid: Grid, g: Game, input: Input): Game {
    Draw(grid, Update(grid, g, input), input)
  }

  // Frame i takes gs[i] to gs[i + 1]; the game clock never runs backwards.
  ghost predicate Run(grid: Grid, gs: seq<Game>, ins: seq<Input>) {
    && |gs| == |ins| + 1 && (exists tour :: gs[0] == Start(tour))
    && (forall i :: 0 <= i < |ins| ==> gs[i + 1] == Frame(grid, gs[i], ins[i]))
    && (forall i, j :: 0 <= i <= j < |ins| ==> ins[i].now <= ins[j].now)
  }

  // Frames come at most d apart.
  ghost predicate Steady(ins: seq<Input>, d: real) {
    forall i :: 0 <= i < |ins| - 1 ==> ins[i + 1].now - ins[i].now <= d
  }

  function MoveTimes(sent: seq<Sent>): seq<real> {
    if sent == [] then []
    else
      var last := sent[|sent| - 1];
      MoveTimes(sent[..|sent| - 1]) + if last.Move? then [last.at] else []
  }

  // ---- What one frame does, step by step. ----

  lemma {:induction false} ApplyOnlyTellsTheWorld(g: Game, packets: seq<Packet>)
    ensures var g' := Apply(g, packets);
            && g' == g.(login := g'.login, entered := g'.entered, zoneId := g'.zoneId)
            && (g.entered ==> g'.entered)
    decreases |packets|
  {
    if packets != [] {
      var g' := match packets[0]
                case LoginReply(succeeded) => g.(login := Some(succeeded))
                case EnterZone(zoneId) => g.(entered := true, zoneId := zoneId)
                case Other => g;
      ApplyOnlyTellsTheWorld(g', packets[1..]);
    }
  }

  lemma MoveTimesMore(sent: seq<Sent>, s: Sent)
    ensures MoveTimes(sent + [s]) == MoveTimes(sent) + if s.Move? then [s.at] else []
  {
  }

  function Rank(p: Phase): nat {
    match p case Login => 0 case Loading => 1 case InGame => 2
  }

  predicate InClampedWorld(grid: Grid, x: real, y: real) {
    && 0.0 <= x <= Edge(grid.zonesPerRow, grid.size) - EPSILON
    && 0.0 <= y <= Edge(grid.rows, grid.size) - EPSILON
  }

  // The world is larger than the start position by more than the clamp's margin.
  predicate Roomy(grid: Grid) {
    && ValidGrid(grid)
    && START + EPSILON <= Edge(grid.zonesPerRow, grid.size) && START + EPSILON <= Edge(grid.rows, grid.size)
  }

  // The grid of 2 x 2 zones of 100 units that client and server agree on is.
  lemma WorldIsRoomy()
    ensures Roomy(WORLD)
  {
  }

  // The times of the moves sent, kept with the send stamp: increasing by at least the send interval.
  ghost predicate Paced(g: Game) {
    var times := MoveTimes(g.sent);
    && (forall i :: 0 <= i < |times| - 1 ==> times[i + 1] - times[i] >= MOVE_SEND_INTERVAL)
    && (g.moveSentAt == if times == [] then None else Some(times[|times| - 1]))
  }

  ghost predicate Inv(grid: Grid, g: Game) {
    && Paced(g)
    && InClampedWorld(grid, g.x, g.y)
    && (forall i :: 0 <= i < |g.sent| && g.sent[i].Move? ==> InClampedWorld(grid, g.sent[i].x, g.sent[i].y))
    && (g.phase != InGame ==> g.sent == [] && g.moveSentAt.None? && g.pingSentAt.None?)
    && (g.phase == InGame ==> g.entered)
  }

  lemma SetPositionKeepsInv(grid: Grid, g: Game, x: real, y: real)
    requires Roomy(grid) && Inv(grid, g)
    ensures Inv(grid, SetPosition(grid, g, x, y))
  {
  }

  lemma SendPingKeepsInv(grid: Grid, g: Game, now: real)
    requires Inv(grid, g) && g.phase.InGame?
    ensures Inv(grid, SendPing(g, now))
    ensures MoveTimes(SendPing(g, now).sent) == MoveTimes(g.sent)
  {
  }

  lemma SendIfDueKeepsInv(grid: Grid, g: Game, now: real)
    requires Inv(grid, g) && g.phase.InGame?
    ensures Inv(grid, SendIfDue(g, now))
  {
    hide Edge, InClampedWorld;
    MoveTimesMore(g.sent, Move(now, g.x, g.y));
  }

  // A move went out in this frame.
  predicate MoveSent(g: Game, g': Game, now: real) {
    MoveTimes(g'.sent) == MoveTimes(g.sent) + [now] && g'.moveSentAt == Some(now)
  }

  predicate NoMoveSent(g: Game, g': Game) {
    MoveTimes(g'.sent) == MoveTimes(g.sent) && g'.moveSentAt == g.moveSentAt
  }

  // The part of an in-game frame before the sends.
  function Prepared(grid: Grid, g: Game, input: Input): Game {
    Steer(grid, Keys(Announce(Apply(g, input.packets)), input), input)
  }

  lemma PreparedKeepsInv(grid: Grid, g: Game, input: Input)
    requires Roomy(grid) && Inv(grid, g) && g.phase.InGame?
    ensures var p := Prepared(grid, g, input);
            && Inv(grid, p) && p.phase.InGame? && NoMoveSent(g, p)
            && (g.moveDirty || ZoneUnannounced(Apply(g, input.packets)) ==> p.moveDirty)
  {
    hide Inv, Edge, MoveTimes, SetPosition, Apply, Target;
    ApplyOnlyTellsTheWorld(g, input.packets);
    var a := Apply(g, input.packets);
    WorldKeepsInv(grid, g, a);
    WorldKeepsInv(grid, a, Announce(a));
    var b := Announce(a);
    var c := if input.f1 then SendPing(b, input.now) else b;
    if input.f1 { SendPingKeepsInv(grid, b, input.now); }
    var k := Keys(b, input);
    WorldKeepsInv(grid, c, k);
    if k.autoTour {
      SetPositionKeepsInv(grid, k, input.tour.0, input.tour.1);
      SetPositionFrame(grid, k, input.tour.0, input.tour.1);
    } else if !input.typing && input.direction != (0.0, 0.0) {
      SetPositionKeepsInv(grid, k, Target(k, input).0, Target(k, input).1);
      SetPositionFrame(grid, k, Target(k, input).0, Target(k, input).1);
    }
  }

  lemma SetPositionFrame(grid: Grid, g: Game, x: real, y: real)
    ensures var g' := SetPosition(grid, g, x, y);
            g' == g.(x := g'.x, y := g'.y, moveDirty := true)
  {
  }

  // The invariant does not look at the other fields, except that a zone once entered stays entered.
  lemma WorldKeepsInv(grid: Grid, g: Game, g': Game)
    requires Inv(grid, g) && g'.sent == g.sent && g'.moveSentAt == g.moveSentAt && g'.pingSentAt == g.pingSentAt
    requires g'.x == g.x && g'.y == g.y && g'.phase == g.phase && (g.entered ==> g'.entered)
    ensures Inv(grid, g')
  {
  }

  // An in-game frame: either it sends a move, or the last one is recent enough; a dirty position or
  // a newly noticed zone is sent at once or is still waiting for the send interval; pings are regular.
  lemma InGameFrame(grid: Grid, g: Game, input: Input)
    requires Roomy(grid) && Inv(grid, g) && g.phase.InGame?
    ensures var g' := Frame(grid, g, input);
            && Inv(grid, g') && g'.phase.InGame?
            && (MoveSent(g, g', input.now) || (NoMoveSent(g, g') && !Due(g'.moveSentAt, input.now, HEARTBEAT_INTERVAL)))
            && !Due(g'.moveSentAt, input.now, HEARTBEAT_INTERVAL)
            && !Due(g'.pingSentAt, input.now, PING_INTERVAL)
            && (g.moveDirty || ZoneUnannounced(Apply(g, input.packets)) ==>
                  || MoveSent(g, g', input.now)
                  || (NoMoveSent(g, g') && g'.moveDirty && !Due(g'.moveSentAt, input.now, MOVE_SEND_INTERVAL)))
            && g'.announced && g'.announcedZoneId == g'.zoneId
  {
    hide Inv, Edge, MoveTimes, SetPosition, Apply, Steer, Keys;
    ApplyOnlyTellsTheWorld(g, input.packets);
    PreparedKeepsInv(grid, g, input);
    var p := Prepared(grid, g, input);
    PreparedEntered(grid, g, input);
    SendIfDueKeepsInv(grid, p, input.now);
    MoveTimesMore(p.sent, Move(input.now, p.x, p.y));
    var s := SendIfDue(p, input.now);
    SendPingKeepsInv(grid, s, input.now);
    var u := PingIfDue(s, input.now);
    assert Update(grid, g, input) == u;
    if input.click.Some? {
      SetPositionKeepsInv(grid, u, input.click.value.0, input.click.value.1);
      SetPositionFrame(grid, u, input.click.value.0, input.click.value.1);
    }
  }

  lemma PreparedEntered(grid: Grid, g: Game, input: Input)
    requires Inv(grid, g) && g.phase.InGame?
    ensures var p := Prepared(grid, g, input);
            p.entered && p.announced && p.announcedZoneId == p.zoneId
  {
    hide Edge, MoveTimes, ClampReal, Paced;
    ApplyOnlyTellsTheWorld(g, input.packets);
  }

  lemma PreGameUpdate(grid: Grid, g: Game, input: Input)
    requires Inv(grid, g) && !g.phase.InGame?
    ensures var g' := Update(grid, g, input);
            && Inv(grid, g') && g'.sent == g.sent && g'.moveSentAt == g.moveSentAt
            && Rank(g.phase) <= Rank(g'.phase) <= Rank(g.phase) + 1
            && (g.phase.Loading? ==> (g'.phase.InGame? <==> g'.entered))
  {
    hide Edge, MoveTimes, Apply, Keys, Steer, InClampedWorld;
    ApplyOnlyTellsTheWorld(g, input.packets);
    WorldKeepsInv(grid, g, Apply(g, input.packets));
  }

  lemma PreGameFrame(grid: Grid, g: Game, input: Input)
    requires Roomy(grid) && Inv(grid, g) && !g.phase.InGame?
    ensures var g' := Frame(grid, g, input);
            && Inv(grid, g') && g'.sent == g.sent && g'.moveSentAt == g.moveSentAt
            && Rank(g.phase) <= Rank(g'.phase) <= Rank(g.phase) + 1
            && (g.phase.Loading? ==> (g'.phase.InGame? <==> g'.entered))
  {
    hide Inv, Update, SetPosition;
    PreGameUpdate(grid, g, input);
    var u := Update(grid, g, input);
    if u.phase == Login {
      WorldKeepsInv(grid, u, u.(login := None));
    } else if input.click.Some? {
      SetPositionFrame(grid, u, input.click.value.0, input.click.value.1);
      SetPositionKeepsInv(grid, u, input.click.value.0, input.click.value.1);
    }
  }
}
