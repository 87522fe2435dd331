// RuidGenerator: 63-bit ids issued lock-free by any number of threads of one process, as a state
// machine whose steps are the atomic accesses of Next. The scheduler, the clock (which may run
// backwards) and spurious failures of the compare-and-swap are arbitrary.
module Ruid {
  import opened Options

  const SEQUENCES: nat := 0x1000            // 2^12 per millisecond
  const NODES: nat := 0x400                 // 2^10
  const MS_LIMIT: nat := 0x200_0000_0000    // 2^41
  const ID_LIMIT: int := 0x8000_0000_0000_0000
  const NODE_RESERVED: nat := 0
  const EPOCH_MS: int := 1767225600000

  // Initialize accepts a node number once, unless it is reserved or does not fit its field.
  class RuidGenerator {
    var nodeId: nat
    var lastStamp: nat
    var initialized: bool

    constructor ()
      ensures !initialized && nodeId == 0 && lastStamp == 0
    {
      nodeId, lastStamp, initialized := 0, 0, false;
    }

    method Initialize(node: nat) returns (ok: bool)
      modifies this
      ensures ok <==> !old(initialized) && 0 < node < NODES
      ensures ok ==> initialized && nodeId == node && lastStamp == 0
      ensures !ok ==> initialized == old(initialized) && nodeId == old(nodeId) && lastStamp == old(lastStamp)
    {
      if initialized {
        return false;
      }
      if node == NODE_RESERVED || node > NODES - 1 {
        return false;
      }
      nodeId, lastStamp, initialized := node, 0, true;
      return true;
    }
  }

  // (ms << 22) | (node << 12) | sequence, for a stamp (ms << 12) | sequence.
  function Assemble(stamp: nat, node: nat): nat
    requires node < NODES
  {
    stamp / SEQUENCES * (NODES * SEQUENCES) + node * SEQUENCES + stamp % SEQUENCES
  }

  function TimestampMsOf(id: nat): int {
    id / (NODES * SEQUENCES) % MS_LIMIT + EPOCH_MS
  }

  function NodeIdOf(id: nat): nat {
    id / SEQUENCES % NODES
  }

  function SequenceOf(id: nat): nat {
    id % SEQUENCES
  }

  // An id of 63 bits is read back field by field.
  lemma FieldsReadBack(stamp: nat, node: nat)
    requires node < NODES && stamp < MS_LIMIT * SEQUENCES
    ensures var id := Assemble(stamp, node);
            && id < ID_LIMIT
            && TimestampMsOf(id) == stamp / SEQUENCES + EPOCH_MS
            && NodeIdOf(id) == node
            && SequenceOf(id) == stamp % SEQUENCES
  {
    var ms, sequence := stamp / SEQUENCES, stamp % SEQUENCES;
    assert Assemble(stamp, node) == (ms * NODES + node) * SEQUENCES + sequence;
    assert (ms * NODES + node) / NODES == ms && (ms * NODES + node) % NODES == node;
  }

  lemma AssembleOrders(a: nat, b: nat, node: nat)
    requires node < NODES && a < b
    ensures Assemble(a, node) < Assemble(b, node)
  {
  }

  // What a thread wants to store after observing `observed` at `elapsed` ms; None when the
  // millisecond has no sequence left. A clock behind the observed time reuses the observed time.
  function Desired(observed: nat, elapsed: nat): Option<nat> {
    var observedMs, observedSequence := observed / SEQUENCES, observed % SEQUENCES;
    if elapsed <= observedMs then
      if observedSequence + 1 > SEQUENCES - 1 then None
      else Some(observedMs * SEQUENCES + observedSequence + 1)
    else
      Some(elapsed * SEQUENCES)
  }

  lemma DesiredIsLater(observed: nat, elapsed: nat)
    requires observed < MS_LIMIT * SEQUENCES && elapsed < MS_LIMIT && Desired(observed, elapsed).Some?
    ensures observed < Desired(observed, elapsed).value < MS_LIMIT * SEQUENCES
  {
  }

  // Where a thread is in Next: about to load, holding what it loaded, or about to swap.
  datatype Thread = Idle | Loaded(observed: nat) | Ready(observed: nat, desired: nat)

  datatype State = State(node: nat, last: nat, threads: seq<Thread>, issued: seq<nat>)

  datatype Action =
    | Load(t: nat)
    | ReadClock(t: nat, elapsed: int)
    | Swap(t: nat, spurious: bool)

  predicate Initial(s: State) {
    && 0 < s.node < NODES && s.last == 0 && s.issued == []
    && forall t :: 0 <= t < |s.threads| ==> s.threads[t].Idle?
  }

  // A clock out of range aborts the process, so no step follows it.
  predicate Step(s: State, a: Action, s': State) {
    && a.t < |s.threads|
    && match a
       case Load(t) =>
         s.threads[t].Idle? && s' == s.(threads := s.threads[t := Loaded(s.last)])
       case ReadClock(t, elapsed) =>
         && s.threads[t].Loaded? && 0 <= elapsed < MS_LIMIT
         && var observed := s.threads[t].observed;
         && var d := Desired(observed, elapsed);
         && s' == s.(threads := s.threads[t := if d.None? then Idle else Ready(observed, d.value)])
       case Swap(t, spurious) =>
         && s.threads[t].Ready? && s.node < NODES
         && var Ready(observed, desired) := s.threads[t];
         && s' == if s.last == observed && !spurious
                  then State(s.node, desired, s.threads[t := Idle], s.issued + [Assemble(desired, s.node)])
                  else s.(threads := s.threads[t := Idle])
  }

  predicate ThreadOk(t: Thread) {
    match t
    case Idle => true
    case Loaded(observed) => observed < MS_LIMIT * SEQUENCES
    case Ready(observed, desired) => observed < desired < MS_LIMIT * SEQUENCES
  }

  // An id was assembled from some stamp no later than the last one stored.
  ghost predicate IssuedBy(id: nat, node: nat, last: nat)
    requires node < NODES
  {
    exists stamp :: 0 < stamp <= last && id == Assemble(stamp, node)
  }

  ghost predicate Inv(s: State) {
    && 0 < s.node < NODES && s.last < MS_LIMIT * SEQUENCES
    && (forall t :: 0 <= t < |s.threads| ==> ThreadOk(s.threads[t]))
    && (forall i :: 0 <= i < |s.issued| ==> IssuedBy(s.issued[i], s.node, s.last))
    && (forall i, j :: 0 <= i < j < |s.issued| ==> s.issued[i] < s.issued[j])
    && (s.last == 0 || Assemble(s.last, s.node) in s.issued)
  }

  lemma IssueKeepsInv(s: State, stamp: nat)
    requires Inv(s) && s.last < stamp < MS_LIMIT * SEQUENCES
    ensures Inv(s.(last := stamp, issued := s.issued + [Assemble(stamp, s.node)]))
  {
    hide Assemble;
    var id := Assemble(stamp, s.node);
    assert IssuedBy(id, s.node, stamp);
    forall i | 0 <= i < |s.issued|
      ensures s.issued[i] < id && IssuedBy(s.issued[i], s.node, stamp)
    {
      assert IssuedBy(s.issued[i], s.node, s.last);
      var earlier :| 0 < earlier <= s.last && s.issued[i] == Assemble(earlier, s.node);
      AssembleOrders(earlier, stamp, s.node);
      assert 0 < earlier <= stamp;
    }
  }

  lemma StepKeepsInv(s: State, a: Action, s': State)
    requires Inv(s) && Step(s, a, s')
    ensures Inv(s') && s'.node == s.node
  {
    hide Assemble, Desired, IssuedBy;
    match a {
      case Load(t) =>
      case ReadClock(t, elapsed) =>
        var observed := s.threads[t].observed;
        assert ThreadOk(s.threads[t]);
        if Desired(observed, elapsed).Some? {
          DesiredIsLater(observed, elapsed);
        }
      case Swap(t, spurious) =>
        var Ready(observed, desired) := s.threads[t];
        assert ThreadOk(s.threads[t]);
        if s.last == observed && !spurious {
          IssueKeepsInv(s, desired);
        }
    }
  }

  ghost predicate Run(ss: seq<State>, actions: seq<Action>) {
    && |ss| == |actions| + 1 && Initial(ss[0])
    && forall i :: 0 <= i < |actions| ==> Step(ss[i], actions[i], ss[i + 1])
  }

  lemma {:induction false} RunKeepsInv(ss: seq<State>, actions: seq<Action>, k: nat)
    requires Run(ss, actions) && k <= |actions|
    ensures Inv(ss[k]) && ss[k].node == ss[0].node
    decreases k
  {
    hide Step, Inv;
    if k == 0 {
      InitialInv(ss[0]);
    } else {
      RunKeepsInv(ss, actions, k - 1);
      StepKeepsInv(ss[k - 1], actions[k - 1], ss[k]);
    }
  }

  lemma InitialInv(s: State)
    requires Initial(s)
    ensures Inv(s)
  {
  }

  // Whatever the threads, the scheduler and the clock do, a process issues strictly increasing ids
  // that carry its node number, are at least 4096 and fit 63 bits.
  lemma IdsAreUniqueAndOrdered(ss: seq<State>, actions: seq<Action>)
    requires Run(ss, actions)
    ensures var ids := ss[|actions|].issued;
            && (forall i, j :: 0 <= i < j < |ids| ==> ids[i] < ids[j])
            && (forall i :: 0 <= i < |ids| ==>
                  SEQUENCES <= ids[i] < ID_LIMIT && NodeIdOf(ids[i]) == ss[0].node)
  {
    RunKeepsInv(ss, actions, |actions|);
    var s := ss[|actions|];
    forall i | 0 <= i < |s.issued|
      ensures SEQUENCES <= s.issued[i] < ID_LIMIT && NodeIdOf(s.issued[i]) == s.node
    {
      assert IssuedBy(s.issued[i], s.node, s.last);
      var stamp :| 0 < stamp <= s.last && s.issued[i] == Assemble(stamp, s.node);
      FieldsReadBack(stamp, s.node);
    }
  }

  // Two processes with different node numbers never issue the same id.
  lemma DifferentNodesNeverCollide(ss: seq<State>, a: seq<Action>, ss': seq<State>, a': seq<Action>, i: nat, j: nat)
    requires Run(ss, a) && Run(ss', a') && ss[0].node != ss'[0].node
    requires i < |ss[|a|].issued| && j < |ss'[|a'|].issued|
    ensures ss[|a|].issued[i] != ss'[|a'|].issued[j]
  {
    IdsAreUniqueAndOrdered(ss, a);
    IdsAreUniqueAndOrdered(ss', a');
  }

  // ---- The same process started again: the generator begins from 0 under the same node number. ----

  // Every clock reading is at least `elapsed` milliseconds past the epoch.
  ghost predicate ReadingsFrom(actions: seq<Action>, elapsed: nat) {
    forall i :: 0 <= i < |actions| && actions[i].ReadClock? ==> actions[i].elapsed >= elapsed
  }

  predicate Disjoint(a: seq<nat>, b: seq<nat>) {
    forall id :: id in a ==> id !in b
  }

  // Nothing below `floor` is issued or about to be stored.
  ghost predicate Above(s: State, floor: nat) {
    && s.node < NODES
    && (forall t :: 0 <= t < |s.threads| && s.threads[t].Ready? ==> s.threads[t].desired >= floor)
    && (forall i :: 0 <= i < |s.issued| ==> s.issued[i] >= Assemble(floor, s.node))
  }

  lemma StepKeepsAbove(s: State, a: Action, s': State, elapsed: nat)
    requires Above(s, elapsed * SEQUENCES) && Step(s, a, s') && (a.ReadClock? ==> a.elapsed >= elapsed)
    ensures Above(s', elapsed * SEQUENCES)
  {
    if a.Swap? {
      var desired, floor := s.threads[a.t].desired, elapsed * SEQUENCES;
      if desired > floor {
        AssembleOrders(floor, desired, s.node);
      }
    }
  }

  lemma {:induction false} RunKeepsAbove(ss: seq<State>, actions: seq<Action>, elapsed: nat, k: nat)
    requires Run(ss, actions) && ReadingsFrom(actions, elapsed) && k <= |actions|
    ensures Above(ss[k], elapsed * SEQUENCES)
    decreases k
  {
    hide Step, Assemble;
    if k > 0 {
      RunKeepsAbove(ss, actions, elapsed, k - 1);
      StepKeepsAbove(ss[k - 1], actions[k - 1], ss[k], elapsed);
    }
  }

  // No issued id is past the last stamp.
  lemma IssuedUpToLast(s: State, id: nat)
    requires Inv(s) && id in s.issued
    ensures id <= Assemble(s.last, s.node)
  {
    hide Assemble;
    var i :| 0 <= i < |s.issued| && s.issued[i] == id;
    assert IssuedBy(id, s.node, s.last);
    var stamp :| 0 < stamp <= s.last && id == Assemble(stamp, s.node);
    if stamp < s.last {
      AssembleOrders(stamp, s.last, s.node);
    }
  }

  // One thread going once through Next, undisturbed.
  lemma IssueOnce(s: State, elapsed: nat) returns (ss: seq<State>, actions: seq<Action>)
    requires s.threads == [Idle] && s.node < NODES && elapsed < MS_LIMIT && Desired(s.last, elapsed).Some?
    ensures |actions| == 3 && |ss| == 4 && ss[0] == s && ReadingsFrom(actions, elapsed)
    ensures forall i :: 0 <= i < 3 ==> Step(ss[i], actions[i], ss[i + 1])
    ensures ss[3].threads == [Idle] && ss[3].node == s.node && ss[3].last == Desired(s.last, elapsed).value
  {
    var d := Desired(s.last, elapsed).value;
    actions := [Load(0), ReadClock(0, elapsed), Swap(0, false)];
    ss := [s, s.(threads := [Loaded(s.last)]), s.(threads := [Ready(s.last, d)]),
           State(s.node, d, [Idle], s.issued + [Assemble(d, s.node)])];
  }

  // Any stamp can be the last one of a run whose clock stands still.
  lemma {:induction false} ReachStamp(node: nat, ms: nat, k: nat) returns (ss: seq<State>, actions: seq<Action>)
    requires 0 < node < NODES && ms < MS_LIMIT && k < SEQUENCES && (ms == 0 ==> k > 0)
    ensures Run(ss, actions) && ss[0].node == node && ReadingsFrom(actions, ms)
    ensures ss[|actions|].threads == [Idle] && ss[|actions|].node == node && ss[|actions|].last == ms * SEQUENCES + k
    decreases k
  {
    hide Step;
    if k == 0 || (ms == 0 && k == 1) {
      var s := State(node, 0, [Idle], []);
      ss, actions := IssueOnce(s, ms);
    } else {
      var ss0, actions0 := ReachStamp(node, ms, k - 1);
      var n := |actions0|;
      NextInSameMs(ms, k - 1);
      var more, moreActions := IssueOnce(ss0[n], ms);
      ss, actions := ss0 + more[1..], actions0 + moreActions;
      forall i | 0 <= i < |actions|
        ensures Step(ss[i], actions[i], ss[i + 1])
      {
        if i >= n {
          assert ss[i] == more[i - n] && ss[i + 1] == more[i - n + 1] && actions[i] == moreActions[i - n];
        }
      }
    }
  }

  lemma NextInSameMs(ms: nat, k: nat)
    requires k + 1 < SEQUENCES
    ensures Desired(ms * SEQUENCES + k, ms) == Some(ms * SEQUENCES + k + 1)
  {
  }

  // A restarted process whose clock may be as early as `elapsed` is sure not to repeat an id if and
  // only if that is later than the millisecond of the last id issued before: nothing but the clock
  // keeps the two apart.
  lemma RestartIsSafeIffClockMovedOn(ss: seq<State>, actions: seq<Action>, elapsed: nat)
    requires Run(ss, actions) && ss[|actions|].last > 0 && elapsed < MS_LIMIT
    ensures (forall ss': seq<State>, actions': seq<Action> ::
               Run(ss', actions') && ss'[0].node == ss[0].node && ReadingsFrom(actions', elapsed) ==>
               Disjoint(ss[|actions|].issued, ss'[|actions'|].issued))
            <==> elapsed > ss[|actions|].last / SEQUENCES
  {
    hide Assemble, Step;
    var s := ss[|actions|];
    var ms, k := s.last / SEQUENCES, s.last % SEQUENCES;
    RunKeepsInv(ss, actions, |actions|);
    if elapsed > ms {
      forall ss': seq<State>, actions': seq<Action> |
        Run(ss', actions') && ss'[0].node == ss[0].node && ReadingsFrom(actions', elapsed)
        ensures Disjoint(s.issued, ss'[|actions'|].issued)
      {
        LaterRunIsDisjoint(s, ss', actions', elapsed);
      }
    } else {
      var ss', actions' := ReachStamp(s.node, ms, k);
      RunKeepsInv(ss', actions', |actions'|);
      var id := Assemble(s.last, s.node);
      assert id in s.issued && id in ss'[|actions'|].issued;
    }
  }

  lemma LaterRunIsDisjoint(s: State, ss: seq<State>, actions: seq<Action>, elapsed: nat)
    requires Inv(s) && Run(ss, actions) && ss[0].node == s.node && ReadingsFrom(actions, elapsed)
    requires elapsed > s.last / SEQUENCES
    ensures Disjoint(s.issued, ss[|actions|].issued)
  {
    hide Assemble, Step, Inv;
    RunKeepsInv(ss, actions, |actions|);
    RunKeepsAbove(ss, actions, elapsed, |actions|);
    NodeFits(s);
    AssembleOrders(s.last, elapsed * SEQUENCES, s.node);
    forall id | id in s.issued
      ensures id !in ss[|actions|].issued
    {
      IssuedUpToLast(s, id);
    }
  }

  lemma NodeFits(s: State)
    requires Inv(s)
    ensures s.node < NODES
  {
  }

  // ---- The time in an id. ----

  // No clock reading is past `latest` milliseconds.
  ghost predicate ReadingsUpTo(actions: seq<Action>, latest: nat) {
    forall i :: 0 <= i < |actions| && actions[i].ReadClock? ==> actions[i].elapsed <= latest
  }

  ghost predicate Below(s: State, latest: nat) {
    && s.last / SEQUENCES <= latest
    && forall t :: 0 <= t < |s.threads| ==>
         match s.threads[t]
         case Idle => true
         case Loaded(observed) => observed / SEQUENCES <= latest
         case Ready(_, desired) => desired / SEQUENCES <= latest
  }

  lemma {:induction false} RunKeepsBelow(ss: seq<State>, actions: seq<Action>, latest: nat, k: nat)
    requires Run(ss, actions) && ReadingsUpTo(actions, latest) && k <= |actions|
    ensures Below(ss[k], latest)
    decreases k
  {
    hide Assemble;
    if k > 0 {
      RunKeepsBelow(ss, actions, latest, k - 1);
      assert Step(ss[k - 1], actions[k - 1], ss[k]);
    }
  }

  // The time read back from an id lies between the earliest and the latest clock reading of the run
  // that issued it, also when the clock has been set back.
  lemma IdsCarryTimesThatWereRead(ss: seq<State>, actions: seq<Action>, earliest: nat, latest: nat, i: nat)
    requires Run(ss, actions) && ReadingsFrom(actions, earliest) && ReadingsUpTo(actions, latest)
    requires i < |ss[|actions|].issued|
    ensures EPOCH_MS + earliest <= TimestampMsOf(ss[|actions|].issued[i]) <= EPOCH_MS + latest
  {
    hide Step, TimestampMsOf;
    var s, id := ss[|actions|], ss[|actions|].issued[i];
    RunKeepsInv(ss, actions, |actions|);
    RunKeepsAbove(ss, actions, earliest, |actions|);
    RunKeepsBelow(ss, actions, latest, |actions|);
    assert IssuedBy(id, s.node, s.last);
    var stamp :| 0 < stamp <= s.last && id == Assemble(stamp, s.node);
    FieldsReadBack(stamp, s.node);
    if stamp < earliest * SEQUENCES {
      AssembleOrders(stamp, earliest * SEQUENCES, s.node);
    }
  }
}
