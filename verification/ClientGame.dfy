// ClientGame: the fields the frame loop updates in place, proved against the frame function.
module ClientGame {
  import opened Options
  import opened ZoneGrid
  import opened ClientSpec
  import opened ClientRuns

  class WorldModel {
    var login: Option<bool>
    var hasEnteredZone: bool
    var myZoneId: nat

    constructor ()
      ensures login.None? && !hasEnteredZone && myZoneId == 0
    {
      login, hasEnteredZone, myZoneId := None, false, 0;
    }

    method BeginLogin()
      modifies this`login
      ensures login.None?
    {
      login := None;
    }

    method ApplyPacket(packet: Packet)
      modifies this
      ensures login == if packet.LoginReply? then Some(packet.succeeded) else old(login)
      ensures hasEnteredZone == (packet.EnterZone? || old(hasEnteredZone))
      ensures myZoneId == if packet.EnterZone? then packet.zoneId else old(myZoneId)
    {
      match packet {
        case LoginReply(succeeded) => login := Some(succeeded);
        case EnterZone(zoneId) => myZoneId, hasEnteredZone := zoneId, true;
        case Other =>
      }
    }
  }

  class ClientGame {
    const grid: Grid
    const world: WorldModel
    var phase: Phase
    var moveDirty: bool
    var moveSentAt: Option<real>
    var pingSentAt: Option<real>
    var announcedZone: bool
    var announcedZoneId: nat
    var localX: real
    var localY: real
    var autoTour: bool
    var nowSeconds: real
    var link: seq<Sent>   // what has been handed to the connection

    ghost function View(): Game
      reads this, world
    {
      Game(phase, world.login, world.hasEnteredZone, world.myZoneId, moveDirty, moveSentAt, pingSentAt,
           announcedZone, announcedZoneId, localX, localY, autoTour, link)
    }

    constructor (grid: Grid, autoTour: bool)
      ensures this.grid == grid && fresh(world) && View() == Start(autoTour)
    {
      this.grid, this.autoTour := grid, autoTour;
      world := new WorldModel();
      phase, moveDirty, moveSentAt, pingSentAt := Login, false, None, None;
      announcedZone, announcedZoneId, localX, localY := false, 0, START, START;
      nowSeconds, link := 0.0, [];
    }

    method Update(input: Input)
      modifies this, world
      ensures View() == ClientSpec.Update(grid, old(View()), input)
    {
      nowSeconds := input.now;
      Drain(input.packets);
      match phase {
        case Login => UpdateLoginPhase();
        case Loading => UpdateLoadingPhase();
        case InGame =>
          AnnouncePositionOnZoneChange();
          HandleGlobalKeys(input);
          HandleMovement(input);
          HandlePing();
      }
    }

    method Drain(packets: seq<Packet>)
      modifies world
      ensures View() == Apply(old(View()), packets)
    {
      for i := 0 to |packets|
        invariant Apply(View(), packets[i..]) == Apply(old(View()), packets)
      {
        assert packets[i..][1..] == packets[i + 1..];
        world.ApplyPacket(packets[i]);
      }
    }

    method UpdateLoginPhase()
      modifies this`phase, world
      ensures View() == UpdateLogin(old(View()))
    {
      if world.login.None? {
        return;
      }
      var outcome := world.login.value;
      world.BeginLogin();
      if outcome {
        phase := Loading;
      }
    }

    method UpdateLoadingPhase()
      modifies this`phase
      ensures View() == UpdateLoading(old(View()))
    {
      if world.hasEnteredZone {
        phase := InGame;
      }
    }

    method AnnouncePositionOnZoneChange()
      modifies this`announcedZone, this`announcedZoneId, this`moveDirty
      ensures View() == Announce(old(View()))
    {
      if !world.hasEnteredZone || (announcedZone && world.myZoneId == announcedZoneId) {
        return;
      }
      announcedZone := true;
      announcedZoneId := world.myZoneId;
      moveDirty := true;
    }

    method HandleGlobalKeys(input: Input)
      modifies this`autoTour, this`link, this`pingSentAt
      requires nowSeconds == input.now
      ensures View() == Keys(old(View()), input)
    {
      if input.f1 {
        SendPing();
      }
      if input.f2 && !input.typing {
        autoTour := !autoTour;
      }
    }

    method HandleMovement(input: Input)
      modifies this`localX, this`localY, this`moveDirty, this`moveSentAt, this`link
      requires nowSeconds == input.now
      ensures View() == SendIfDue(Steer(grid, old(View()), input), input.now)
    {
      if autoTour {
        SetLocalPosition(input.tour.0, input.tour.1);
      } else if !input.typing {
        if input.direction != (0.0, 0.0) {
          var delta := MOVE_SPEED * input.elapsed;
          SetLocalPosition(localX + input.direction.0 * delta, localY + input.direction.1 * delta);
        }
      }
      if world.hasEnteredZone && Due(moveSentAt, nowSeconds, HEARTBEAT_INTERVAL) {
        moveDirty := true;
      }
      if moveDirty && Due(moveSentAt, nowSeconds, MOVE_SEND_INTERVAL) {
        SendMove();
        moveSentAt := Some(nowSeconds);
        moveDirty := false;
      }
    }

    method SetLocalPosition(x: real, y: real)
      modifies this`localX, this`localY, this`moveDirty
      ensures View() == SetPosition(grid, old(View()), x, y)
    {
      localX := ClampReal(x, Edge(grid.zonesPerRow, grid.size) - EPSILON);
      localY := ClampReal(y, Edge(grid.rows, grid.size) - EPSILON);
      moveDirty := true;
    }

    method HandlePing()
      modifies this`link, this`pingSentAt
      ensures View() == PingIfDue(old(View()), nowSeconds)
    {
      if Due(pingSentAt, nowSeconds, PING_INTERVAL) {
        SendPing();
      }
    }

    method SendMove()
      modifies this`link
      ensures link == old(link) + [Move(nowSeconds, localX, localY)]
    {
      link := link + [Move(nowSeconds, localX, localY)];
    }

    method SendPing()
      modifies this`link, this`pingSentAt
      ensures View() == ClientSpec.SendPing(old(View()), nowSeconds)
    {
      link := link + [Ping(nowSeconds)];
      pingSentAt := Some(nowSeconds);
    }

    // The parts of drawing that change state: submitting the login form and clicking the zone view.
    method Draw(input: Input)
      modifies this`localX, this`localY, this`moveDirty, world
      ensures View() == ClientSpec.Draw(grid, old(View()), input)
    {
      if phase != InGame {
        if phase == Login && input.loginSubmitted {
          world.BeginLogin();
        }
        return;
      }
      if input.click.Some? {
        SetLocalPosition(input.click.value.0, input.click.value.1);
      }
    }

    // The host's loop: frame after frame, from the start. Every position stays in exactly one zone,
    // and the moves sent keep their schedule for frames at most d apart.
    method Play(inputs: seq<Input>, ghost d: real) returns (ghost gs: seq<Game>)
      requires View() == Start(autoTour) && Roomy(grid)
      requires forall i, j :: 0 <= i <= j < |inputs| ==> inputs[i].now <= inputs[j].now
      modifies this, world
      ensures Run(grid, gs, inputs) && gs[|inputs|] == View()
      ensures OwnedOnce(grid, localX, localY)
      ensures Steady(inputs, d) ==>
                forall i :: 0 <= i < |MoveTimes(link)| - 1 ==>
                  MOVE_SEND_INTERVAL <= MoveTimes(link)[i + 1] - MoveTimes(link)[i] < HEARTBEAT_INTERVAL + d
    {
      hide Frame, OwnedOnce, MoveTimes;
      gs := [View()];
      for i := 0 to |inputs|
        invariant |gs| == i + 1 && gs[0] == old(View()) && gs[i] == View()
        invariant forall k :: 0 <= k < i ==> gs[k + 1] == Frame(grid, gs[k], inputs[k])
      {
        RunFrame(inputs[i]);
        gs := gs + [View()];
      }
      PositionsHaveOneZone(grid, gs, inputs, |inputs|);
      if Steady(inputs, d) {
        SendSchedule(grid, gs, inputs, d, |inputs|);
      }
    }

    method RunFrame(input: Input)
      modifies this, world
      ensures View() == Frame(grid, old(View()), input)
    {
      Update(input);
      Draw(input);
    }
  }
}
