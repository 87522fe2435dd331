// Guarantees of the client's send scheduler over whole runs of frames.
module ClientRuns {
  import opened ZoneGrid
  import opened ClientSpec

  lemma FrameAt(grid: Grid, gs: seq<Game>, ins: seq<Input>, k: nat)
    requires Run(grid, gs, ins) && k < |ins|
    ensures gs[k + 1] == Frame(grid, gs[k], ins[k])
  {
  }

  // From one frame to the next the phase stays or moves one on, never back.
  lemma FrameKeeps(grid: Grid, g: Game, input: Input)
    requires Roomy(grid) && Inv(grid, g)
    ensures Inv(grid, Frame(grid, g, input))
    ensures Rank(g.phase) <= Rank(Frame(grid, g, input).phase) <= Rank(g.phase) + 1
  {
    hide Inv, Frame;
    if g.phase.InGame? {
      InGameFrame(grid, g, input);
    } else {
      PreGameFrame(grid, g, input);
    }
  }

  lemma StartInv(grid: Grid, tour: bool)
    requires Roomy(grid)
    ensures Inv(grid, Start(tour))
  {
  }

  lemma {:induction false} RunInv(grid: Grid, gs: seq<Game>, ins: seq<Input>, k: nat)
    requires Roomy(grid) && Run(grid, gs, ins) && k <= |ins|
    ensures Inv(grid, gs[k])
    decreases k
  {
    hide Inv, Frame, Roomy;
    if k == 0 {
      var tour :| gs[0] == Start(tour);
      StartInv(grid, tour);
    } else {
      RunInv(grid, gs, ins, k - 1);
      FrameAt(grid, gs, ins, k - 1);
      FrameKeeps(grid, gs[k - 1], ins[k - 1]);
    }
  }

  // Phases only go Login -> Loading -> InGame, one at a time, and nothing is sent before InGame.
  lemma {:induction false} PhasesGoForward(grid: Grid, gs: seq<Game>, ins: seq<Input>, j: nat, k: nat)
    requires Roomy(grid) && Run(grid, gs, ins) && j <= k <= |ins|
    ensures Rank(gs[j].phase) <= Rank(gs[k].phase) <= Rank(gs[j].phase) + (k - j)
    ensures !gs[k].phase.InGame? ==> gs[k].sent == []
    decreases k
  {
    hide Frame, Edge, Roomy, Paced;
    RunInv(grid, gs, ins, k);
    if j < k {
      PhasesGoForward(grid, gs, ins, j, k - 1);
      RunInv(grid, gs, ins, k - 1);
      FrameAt(grid, gs, ins, k - 1);
      FrameKeeps(grid, gs[k - 1], ins[k - 1]);
    }
  }

  // Every position held or sent lies in the world, where exactly one zone owns it.
  lemma PositionsHaveOneZone(grid: Grid, gs: seq<Game>, ins: seq<Input>, k: nat)
    requires Roomy(grid) && Run(grid, gs, ins) && k <= |ins|
    ensures OwnedOnce(grid, gs[k].x, gs[k].y)
    ensures forall i :: 0 <= i < |gs[k].sent| && gs[k].sent[i].Move? ==>
              OwnedOnce(grid, gs[k].sent[i].x, gs[k].sent[i].y)
  {
    hide Paced, Frame, OwnedOnce, InClampedWorld;
    var g := gs[k];
    RunInv(grid, gs, ins, k);
    ClampedIsOwned(grid, g.x, g.y);
    forall i | 0 <= i < |g.sent| && g.sent[i].Move?
      ensures OwnedOnce(grid, g.sent[i].x, g.sent[i].y)
    {
      ClampedIsOwned(grid, g.sent[i].x, g.sent[i].y);
    }
  }

  ghost predicate OwnedOnce(grid: Grid, x: real, y: real)
    requires ValidGrid(grid)
  {
    var z := ZoneIdOf(grid, x, y);
    z >= 1 && OnGrid(grid, z) && forall id: nat :: OnGrid(grid, id) ==> (DefOf(grid, id).Contains(x, y) <==> id == z)
  }

  lemma ClampedIsOwned(grid: Grid, x: real, y: real)
    requires ValidGrid(grid) && InClampedWorld(grid, x, y)
    ensures OwnedOnce(grid, x, y)
  {
    hide Edge, ZoneIdOf, DefOf, OnGrid;
    ZonesTileTheWorld(grid, x, y);
  }

  // Consecutive moves are closer than 1.0 + d.
  ghost predicate Regular(sent: seq<Sent>, d: real) {
    var times := MoveTimes(sent);
    forall i :: 0 <= i < |times| - 1 ==> times[i + 1] - times[i] < HEARTBEAT_INTERVAL + d
  }

  // After frame k - 1: the last move is at most 1.0 old, or there has been none.
  ghost predicate Recent(gs: seq<Game>, ins: seq<Input>, k: nat)
    requires k < |gs| && |gs| == |ins| + 1
  {
    gs[k].moveSentAt.Some? ==>
      k > 0 && gs[k].moveSentAt.value <= ins[k - 1].now && ins[k - 1].now - gs[k].moveSentAt.value < HEARTBEAT_INTERVAL
  }

  lemma RegularStep(g: Game, g': Game, now: real, d: real)
    requires Paced(g) && Regular(g.sent, d) && MoveSent(g, g', now)
    requires g.moveSentAt.Some? ==> now - g.moveSentAt.value < HEARTBEAT_INTERVAL + d
    ensures Regular(g'.sent, d)
  {
  }

  lemma {:induction false} MovesAreRegular(grid: Grid, gs: seq<Game>, ins: seq<Input>, d: real, k: nat)
    requires Roomy(grid) && Run(grid, gs, ins) && Steady(ins, d) && k <= |ins|
    ensures Regular(gs[k].sent, d) && Recent(gs, ins, k)
    decreases k
  {
    hide Frame, Roomy, Edge, InClampedWorld, MoveTimes;
    if k == 0 {
      assert MoveTimes(gs[0].sent) == [] by { NoMovesYet(); }
    } else {
      MovesAreRegular(grid, gs, ins, d, k - 1);
      RunInv(grid, gs, ins, k - 1);
      FrameAt(grid, gs, ins, k - 1);
      var g, input := gs[k - 1], ins[k - 1];
      if g.phase.InGame? {
        InGameFrame(grid, g, input);
        if MoveSent(g, gs[k], input.now) {
          RegularStep(g, gs[k], input.now, d);
        }
      } else {
        PreGameFrame(grid, g, input);
      }
    }
  }

  lemma NoMovesYet()
    ensures MoveTimes([]) == []
  {
  }

  // In every run whose frames are at most d apart: consecutive moves are at least 0.05 s and less
  // than 1.0 + d apart, and after every in-game frame the last move and the last ping are less than
  // a second old.
  lemma SendSchedule(grid: Grid, gs: seq<Game>, ins: seq<Input>, d: real, k: nat)
    requires Roomy(grid) && Run(grid, gs, ins) && Steady(ins, d) && k <= |ins|
    ensures var times := MoveTimes(gs[k].sent);
            forall i :: 0 <= i < |times| - 1 ==>
              MOVE_SEND_INTERVAL <= times[i + 1] - times[i] < HEARTBEAT_INTERVAL + d
    ensures k > 0 && gs[k - 1].phase.InGame? ==>
              && gs[k].moveSentAt.Some? && ins[k - 1].now - gs[k].moveSentAt.value < HEARTBEAT_INTERVAL
              && gs[k].pingSentAt.Some? && ins[k - 1].now - gs[k].pingSentAt.value < PING_INTERVAL
  {
    hide Frame, Roomy, Edge, InClampedWorld, MoveTimes;
    MovesAreRegular(grid, gs, ins, d, k);
    RunInv(grid, gs, ins, k);
    if k > 0 && gs[k - 1].phase.InGame? {
      RunInv(grid, gs, ins, k - 1);
      FrameAt(grid, gs, ins, k - 1);
      InGameFrame(grid, gs[k - 1], ins[k - 1]);
    }
  }

  // A position waiting to be sent since frame k, after frame m: the previous move went out no later
  // than frame k and less than 0.05 s before frame m.
  predicate Waiting(gs: seq<Game>, ins: seq<Input>, k: nat, m: nat)
    requires k <= m < |ins| && |gs| == |ins| + 1
  {
    && gs[m + 1].moveDirty && gs[m + 1].moveSentAt.Some?
    && gs[m + 1].moveSentAt.value <= ins[k].now
    && ins[m].now - gs[m + 1].moveSentAt.value < MOVE_SEND_INTERVAL
  }

  // A move answers frame k by frame m, within 0.05 + d seconds.
  ghost predicate Answered(gs: seq<Game>, ins: seq<Input>, d: real, k: nat, m: nat)
    requires k <= m < |ins| && |gs| == |ins| + 1
  {
    exists j :: k <= j <= m && MoveSent(gs[j], gs[j + 1], ins[j].now) &&
                ins[j].now < ins[k].now + MOVE_SEND_INTERVAL + d
  }

  lemma {:induction false} AnsweredOrWaiting(grid: Grid, gs: seq<Game>, ins: seq<Input>, d: real, k: nat, m: nat)
    requires Roomy(grid) && Run(grid, gs, ins) && Steady(ins, d) && d >= 0.0 && k <= m < |ins|
    requires gs[k].phase.InGame? && (gs[k].moveDirty || ZoneUnannounced(Apply(gs[k], ins[k].packets)))
    ensures gs[m + 1].phase.InGame? && (Answered(gs, ins, d, k, m) || Waiting(gs, ins, k, m))
    decreases m
  {
    hide Frame, Roomy, Inv, Edge, MoveTimes, Apply;
    FrameAt(grid, gs, ins, m);
    RunInv(grid, gs, ins, m);
    if k == m {
      MovesAreRegular(grid, gs, ins, d, k);
      InGameFrame(grid, gs[k], ins[k]);
    } else {
      AnsweredOrWaiting(grid, gs, ins, d, k, m - 1);
      InGameFrame(grid, gs[m], ins[m]);
      if !Answered(gs, ins, d, k, m - 1) {
        assert Waiting(gs, ins, k, m - 1);
        assert ins[m].now <= ins[m - 1].now + d;
      }
    }
  }

  // Every zone change noticed in an in-game frame is followed by a move in less than 0.05 + d
  // seconds, as soon as the run has gone on for 0.05 seconds.
  lemma ZoneChangesAreAnnounced(grid: Grid, gs: seq<Game>, ins: seq<Input>, d: real, k: nat, m: nat)
    requires Roomy(grid) && Run(grid, gs, ins) && Steady(ins, d) && d >= 0.0 && k <= m < |ins|
    requires gs[k].phase.InGame? && ZoneUnannounced(Apply(gs[k], ins[k].packets))
    requires ins[m].now >= ins[k].now + MOVE_SEND_INTERVAL
    ensures Answered(gs, ins, d, k, m)
    ensures gs[k + 1].announcedZoneId == gs[k + 1].zoneId && gs[k + 1].announced
  {
    hide Frame, Roomy, Inv, Edge, Apply, MoveSent, Answered;
    AnsweredOrWaiting(grid, gs, ins, d, k, m);
    RunInv(grid, gs, ins, k);
    FrameAt(grid, gs, ins, k);
    InGameFrame(grid, gs[k], ins[k]);
  }
}
