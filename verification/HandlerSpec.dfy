// any_completion_handler as a machine on values: wrappers, the targets they own, and programs that
// construct, move, swap, call and destroy wrappers. Calling a target runs a program of its own,
// so every form of re-entrancy is covered.
module HandlerSpec {
  import opened Options

  type Name = nat      // a wrapper object
  type TargetId = nat  // a target, numbered in order of construction

  // `body` is what invoking the constructed target will do.
  datatype Op =
    | Empty(w: Name)
    | Construct(w: Name, body: seq<Op>)
    | MoveConstruct(w: Name, from: Name)
    | MoveAssign(w: Name, from: Name)
    | NullAssign(w: Name)
    | Swap(w: Name, other: Name)
    | Call(w: Name)
    | Destroy(w: Name)

  // The two pointers of a wrapper.
  datatype Wrapper = Wrapper(hasTable: bool, impl: Option<TargetId>)

  const NULL := Wrapper(false, None)

  // What the outside world can observe of a target; BadCall is std::bad_function_call.
  datatype Event = Created(t: TargetId) | Released(t: TargetId) | Invoked(t: TargetId) | BadCall(w: Name)

  // targets[t] is Some while target t exists.
  datatype Machine = Machine(wrappers: map<Name, Wrapper>, targets: seq<Option<seq<Op>>>, trace: seq<Event>)

  const START := Machine(map[], [], [])

  predicate Live(m: Machine, t: TargetId) {
    t < |m.targets| && m.targets[t].Some?
  }

  // An operation must name wrappers that exist and construct one that does not.
  predicate Enabled(m: Machine, op: Op) {
    match op
    case Empty(w) => w !in m.wrappers
    case Construct(w, _) => w !in m.wrappers
    case MoveConstruct(w, from) => w !in m.wrappers && from in m.wrappers
    case MoveAssign(w, from) => w in m.wrappers && from in m.wrappers
    case NullAssign(w) => w in m.wrappers
    case Swap(w, other) => w in m.wrappers && other in m.wrappers
    case Call(w) => w in m.wrappers
    case Destroy(w) => w in m.wrappers
  }

  // Destroy the target of a dying wrapper, if it has one.
  function Release(m: Machine, impl: Option<TargetId>): Machine {
    if impl.Some? && impl.value < |m.targets| then
      m.(targets := m.targets[impl.value := None], trace := m.trace + [Released(impl.value)])
    else
      m
  }

  // The effect of one operation up to, and excluding, the body of a called target.
  function Step(m: Machine, op: Op): Machine
    requires Enabled(m, op)
  {
    match op
    case Empty(w) => m.(wrappers := m.wrappers[w := NULL])
    case Construct(w, body) =>
      var t := |m.targets|;
      m.(wrappers := m.wrappers[w := Wrapper(true, Some(t))],
         targets := m.targets + [Some(body)],
         trace := m.trace + [Created(t)])
    case MoveConstruct(w, from) =>
      m.(wrappers := m.wrappers[w := m.wrappers[from]][from := NULL])
    case MoveAssign(w, from) =>
      if w == from then m
      else Release(m.(wrappers := m.wrappers[w := m.wrappers[from]][from := NULL]), m.wrappers[w].impl)
    case NullAssign(w) =>
      Release(m.(wrappers := m.wrappers[w := NULL]), m.wrappers[w].impl)
    case Swap(w, other) =>
      m.(wrappers := m.wrappers[w := m.wrappers[other]][other := m.wrappers[w]])
    case Call(w) =>
      var impl := m.wrappers[w].impl;
      if impl.Some? then
        var m' := Release(m.(wrappers := m.wrappers[w := m.wrappers[w].(impl := None)]), impl);
        m'.(trace := m'.trace + [Invoked(impl.value)])
      else
        m.(trace := m.trace + [BadCall(w)])
    case Destroy(w) =>
      Release(m.(wrappers := m.wrappers - {w}), m.wrappers[w].impl)
  }

  // The steps that empty or remove a wrapper, in the order in which the code works.
  lemma MoveConstructStep(m: Machine, op: Op)
    requires op.MoveConstruct? && Enabled(m, op)
    ensures Step(m, op) == m.(wrappers := m.wrappers[op.from := NULL][op.w := m.wrappers[op.from]])
  {
    assert m.wrappers[op.w := m.wrappers[op.from]][op.from := NULL] ==
           m.wrappers[op.from := NULL][op.w := m.wrappers[op.from]];
  }

  lemma DestroyStep(m: Machine, op: Op)
    requires op.Destroy? && Enabled(m, op)
    ensures var m' := Release(m, m.wrappers[op.w].impl);
            Step(m, op) == m'.(wrappers := m'.wrappers - {op.w})
  {
  }

  // The program a call goes on to run inside the target.
  function Upcall(m: Machine, op: Op): seq<Op>
    requires Enabled(m, op)
  {
    if op.Call? && m.wrappers[op.w].impl.Some? && Live(m, m.wrappers[op.w].impl.value) then
      m.targets[m.wrappers[op.w].impl.value].value
    else
      []
  }

  // Operations still to be run if every existing target is eventually invoked.
  function Size(ops: seq<Op>): nat
    decreases ops
  {
    if ops == [] then 0
    else 1 + (if ops[0].Construct? then Size(ops[0].body) else 0) + Size(ops[1..])
  }

  function Stored(targets: seq<Option<seq<Op>>>): nat {
    if targets == [] then 0
    else
      var n := |targets| - 1;
      Stored(targets[..n]) + (if targets[n].Some? then Size(targets[n].value) else 0)
  }

  lemma {:induction false} SizeConcat(a: seq<Op>, b: seq<Op>)
    ensures Size(a + b) == Size(a) + Size(b)
    decreases |a|
  {
    if a == [] {
      assert a + b == b;
    } else {
      SizeConcat(a[1..], b);
      assert (a + b)[1..] == a[1..] + b;
    }
  }

  lemma {:induction false} StoredRelease(targets: seq<Option<seq<Op>>>, t: nat)
    requires t < |targets|
    ensures Stored(targets[t := None]) + (if targets[t].Some? then Size(targets[t].value) else 0) == Stored(targets)
    decreases |targets|
  {
    var n := |targets| - 1;
    if t == n {
      assert targets[t := None][..n] == targets[..n];
    } else {
      assert targets[t := None][..n] == targets[..n][t := None];
      StoredRelease(targets[..n], t);
    }
  }

  // A step uses up its operation; the program of an invoked target was paid for when it was stored.
  lemma StepShrinks(m: Machine, ops: seq<Op>)
    requires ops != [] && Enabled(m, ops[0])
    ensures Size(Upcall(m, ops[0]) + ops[1..]) + Stored(Step(m, ops[0]).targets) < Size(ops) + Stored(m.targets)
  {
    var op := ops[0];
    SizeConcat(Upcall(m, op), ops[1..]);
    if op.Construct? {
      assert (m.targets + [Some(op.body)])[..|m.targets|] == m.targets;
    } else if op.MoveAssign? || op.NullAssign? || op.Call? || op.Destroy? {
      var impl := m.wrappers[op.w].impl;
      if impl.Some? && impl.value < |m.targets| {
        StoredRelease(m.targets, impl.value);
      }
    }
  }

  // Run a program to its end, entering called targets. It always ends: a target is invoked at
  // most once, and its program is finite.
  function Run(m: Machine, ops: seq<Op>): Machine
    decreases Size(ops) + Stored(m.targets)
  {
    if ops == [] then m
    else if !Enabled(m, ops[0]) then
      Run(m, ops[1..])
    else
      StepShrinks(m, ops);
      Run(Step(m, ops[0]), Upcall(m, ops[0]) + ops[1..])
  }

  ghost predicate Owns(m: Machine, w: Name, t: TargetId) {
    w in m.wrappers && m.wrappers[w].impl == Some(t)
  }

  // Target t was created once if it ever existed; it has been released once if and only if it is
  // gone, and invoked at most as often as released.
  ghost predicate Account(targets: seq<Option<seq<Op>>>, trace: seq<Event>, t: TargetId) {
    var seen := multiset(trace);
    && seen[Created(t)] == (if t < |targets| then 1 else 0)
    && seen[Released(t)] == (if t < |targets| && targets[t].None? then 1 else 0)
    && seen[Invoked(t)] <= seen[Released(t)]
  }

  // A target's storage is given back immediately before the target is invoked.
  ghost predicate ReleasedBeforeInvoked(trace: seq<Event>) {
    forall i :: 0 <= i < |trace| && trace[i].Invoked? ==> i > 0 && trace[i - 1] == Released(trace[i].t)
  }

  ghost predicate Accounted(targets: seq<Option<seq<Op>>>, trace: seq<Event>) {
    (forall t :: Account(targets, trace, t)) && ReleasedBeforeInvoked(trace)
  }

  // Linear ownership: wrappers point to existing targets and have a table when they do, no two
  // wrappers share a target, every existing target has a wrapper.
  ghost predicate Linear(m: Machine) {
    && (forall w, t :: Owns(m, w, t) ==> Live(m, t) && m.wrappers[w].hasTable)
    && (forall w, w', t :: Owns(m, w, t) && Owns(m, w', t) ==> w == w')
    && (forall t :: Live(m, t) ==> exists w :: Owns(m, w, t))
  }

  ghost predicate Inv(m: Machine) {
    Linear(m) && Accounted(m.targets, m.trace)
  }

  lemma CreateAccounted(targets: seq<Option<seq<Op>>>, trace: seq<Event>, body: seq<Op>)
    requires Accounted(targets, trace)
    ensures Accounted(targets + [Some(body)], trace + [Created(|targets|)])
  {
    assert multiset(trace + [Created(|targets|)]) == multiset(trace) + multiset{Created(|targets|)};
    forall t ensures Account(targets + [Some(body)], trace + [Created(|targets|)], t) {
      assert Account(targets, trace, t);
    }
  }

  lemma ReleaseAccounted(targets: seq<Option<seq<Op>>>, trace: seq<Event>, t: TargetId)
    requires Accounted(targets, trace) && t < |targets| && targets[t].Some?
    ensures Accounted(targets[t := None], trace + [Released(t)])
  {
    assert multiset(trace + [Released(t)]) == multiset(trace) + multiset{Released(t)};
    var gone, released := targets[t := None], trace + [Released(t)];
    forall t' ensures Account(gone, released, t') {
      assert Account(targets, trace, t');
    }
  }

  lemma InvokeAccounted(targets: seq<Option<seq<Op>>>, trace: seq<Event>, t: TargetId)
    requires Accounted(targets, trace) && t < |targets| && targets[t].Some?
    ensures Accounted(targets[t := None], trace + [Released(t)] + [Invoked(t)])
  {
    ReleaseAccounted(targets, trace, t);
    var gone, released, invoked := targets[t := None], trace + [Released(t)], trace + [Released(t)] + [Invoked(t)];
    assert multiset(released) == multiset(trace) + multiset{Released(t)};
    assert multiset(invoked) == multiset(released) + multiset{Invoked(t)};
    assert Account(targets, trace, t);
    forall t' ensures Account(gone, invoked, t') {
      assert Account(gone, released, t');
    }
  }

  lemma BadCallAccounted(targets: seq<Option<seq<Op>>>, trace: seq<Event>, w: Name)
    requires Accounted(targets, trace)
    ensures Accounted(targets, trace + [BadCall(w)])
  {
    assert multiset(trace + [BadCall(w)]) == multiset(trace) + multiset{BadCall(w)};
    forall t ensures Account(targets, trace + [BadCall(w)], t) {
      assert Account(targets, trace, t);
    }
  }

  lemma StepAccounted(m: Machine, op: Op)
    requires Inv(m) && Enabled(m, op)
    ensures Accounted(Step(m, op).targets, Step(m, op).trace)
  {
    if op.Construct? {
      CreateAccounted(m.targets, m.trace, op.body);
    } else if op.MoveAssign? || op.NullAssign? || op.Call? || op.Destroy? {
      var impl := m.wrappers[op.w].impl;
      if impl.Some? {
        assert Owns(m, op.w, impl.value);
        if op.Call? {
          InvokeAccounted(m.targets, m.trace, impl.value);
        } else {
          ReleaseAccounted(m.targets, m.trace, impl.value);
        }
      } else if op.Call? {
        BadCallAccounted(m.targets, m.trace, op.w);
      }
    }
  }

  // Who owns a target after a step: the old owner, or whoever the step handed it to.
  function HandedTo(op: Op, w: Name): Name {
    match op
    case MoveConstruct(w', from) => if w == from then w' else w
    case MoveAssign(w', from) => if w == from then w' else w
    case Swap(a, b) => if w == a then b else if w == b then a else w
    case _ => w
  }

  // Where what wrapper w holds after an operation was before it.
  function HeldBefore(op: Op, w: Name): Name {
    match op
    case MoveConstruct(w', from) => if w == w' then from else w
    case MoveAssign(w', from) => if w == w' then from else w
    case Swap(a, b) => if w == a then b else if w == b then a else w
    case _ => w
  }

  lemma StepLinear(m: Machine, op: Op)
    requires Linear(m) && Enabled(m, op)
    ensures Linear(Step(m, op))
  {
    var m' := Step(m, op);
    forall t | Live(m', t)
      ensures exists w :: Owns(m', w, t)
    {
      if op.Construct? && t == |m.targets| {
        assert Owns(m', op.w, t);
      } else {
        assert Live(m, t);
        var w :| Owns(m, w, t);
        assert Owns(m', HandedTo(op, w), t);
      }
    }
    forall w, t | Owns(m', w, t)
      ensures Live(m', t) && m'.wrappers[w].hasTable
      ensures (op.Construct? && t == |m.targets| && w == op.w) || exists v :: Owns(m, v, t) && w == HandedTo(op, v)
    {
      if !(op.Construct? && w == op.w) {
        var v := HeldBefore(op, w);
        assert Owns(m, v, t) && w == HandedTo(op, v);
        assert Owns(m, op.w, t) ==> v == op.w;
      }
    }
  }

  lemma StepKeepsInv(m: Machine, op: Op)
    requires Inv(m) && Enabled(m, op)
    ensures Inv(Step(m, op))
  {
    hide Step;
    StepLinear(m, op);
    StepAccounted(m, op);
  }

  // Linear ownership and the account of every target survive every program from every state.
  lemma {:induction false} RunKeepsInv(m: Machine, ops: seq<Op>)
    requires Inv(m)
    ensures Inv(Run(m, ops))
    decreases Size(ops) + Stored(m.targets)
  {
    if ops != [] {
      if Enabled(m, ops[0]) {
        StepKeepsInv(m, ops[0]);
        StepShrinks(m, ops);
        RunKeepsInv(Step(m, ops[0]), Upcall(m, ops[0]) + ops[1..]);
      } else {
        RunKeepsInv(m, ops[1..]);
      }
    }
  }

  // Every program, from nothing: each existing target has exactly one owner, no target is invoked
  // twice, and none is invoked while it exists.
  lemma EveryProgramIsLinear(ops: seq<Op>)
    ensures var m := Run(START, ops);
            && Inv(m)
            && (forall t :: Live(m, t) ==> exists w :: Owns(m, w, t) && forall w' :: Owns(m, w', t) ==> w' == w)
            && (forall t :: multiset(m.trace)[Invoked(t)] <= 1)
            && (forall t :: Live(m, t) ==> multiset(m.trace)[Invoked(t)] == 0)
  {
    RunKeepsInv(START, ops);
    var m := Run(START, ops);
    forall t
      ensures multiset(m.trace)[Invoked(t)] <= if Live(m, t) then 0 else 1
    {
      assert Account(m.targets, m.trace, t);
    }
    forall t | Live(m, t)
      ensures exists w :: Owns(m, w, t) && forall w' :: Owns(m, w', t) ==> w' == w
    {
      var w :| Owns(m, w, t);
    }
  }

  function Destroys(names: seq<Name>): seq<Op> {
    if names == [] then [] else [Destroy(names[0])] + Destroys(names[1..])
  }

  ghost predicate GoneAfterOneRelease(m: Machine, t: TargetId) {
    !Live(m, t) && (t < |m.targets| ==> multiset(m.trace)[Released(t)] == 1)
  }

  // Once every wrapper has been destroyed no target is left, and each was released exactly once.
  lemma {:induction false} NoTargetOutlivesItsWrappers(m: Machine, names: seq<Name>)
    requires Inv(m) && forall w :: w in m.wrappers ==> w in names
    ensures var m' := Run(m, Destroys(names));
            && m'.wrappers == map[] && |m'.targets| == |m.targets|
            && (forall t :: GoneAfterOneRelease(m', t))
    decreases |names|
  {
    if names == [] {
      assert m.wrappers == map[];
      forall t
        ensures GoneAfterOneRelease(m, t)
      {
        assert Account(m.targets, m.trace, t);
      }
    } else {
      var ops := Destroys(names);
      assert ops[1..] == Destroys(names[1..]);
      if Enabled(m, ops[0]) {
        StepKeepsInv(m, ops[0]);
        assert Upcall(m, ops[0]) + ops[1..] == ops[1..];
        NoTargetOutlivesItsWrappers(Step(m, ops[0]), names[1..]);
      } else {
        NoTargetOutlivesItsWrappers(m, names[1..]);
      }
    }
  }

  // A call hands the arguments to the target it found: the target is gone and was invoked last,
  // and the wrapper converts to false although it still has a table.
  lemma CallConsumesTarget(m: Machine, w: Name, t: TargetId)
    requires Inv(m) && Owns(m, w, t)
    ensures var m' := Step(m, Call(w));
            && m'.trace == m.trace + [Released(t), Invoked(t)]
            && !Live(m', t) && m'.wrappers[w] == Wrapper(true, None)
            && Upcall(m, Call(w)) == m.targets[t].value
  {
  }

  // Whether the table pointer can be used as the test for a target.
  predicate TableMeansTarget(m: Machine) {
    forall w :: w in m.wrappers ==> (m.wrappers[w].hasTable <==> m.wrappers[w].impl.Some?)
  }

  // Of all operations, only a call that finds a target breaks that test.
  lemma TableMeansTargetUntilCall(m: Machine, op: Op)
    requires TableMeansTarget(m) && Enabled(m, op)
    ensures TableMeansTarget(Step(m, op)) <==> !(op.Call? && m.wrappers[op.w].impl.Some?)
  {
    if op.Call? && m.wrappers[op.w].impl.Some? {
      assert op.w in Step(m, op).wrappers;
    }
  }

  // ---- Which wrappers have a table but no target. ----

  // Whether what wrapper v holds is still held by some wrapper after an operation.
  predicate Survives(op: Op, v: Name) {
    match op
    case MoveAssign(w, from) => v != w || w == from
    case NullAssign(w) => v != w
    case Destroy(w) => v != w
    case _ => true
  }

  // The wrappers called with a target: a call makes one, moves and swaps pass the state on,
  // assignment to the wrapper and its destruction end it.
  function SpentAfter(m: Machine, spent: set<Name>, op: Op): set<Name>
    requires Enabled(m, op)
  {
    (set v | v in spent && Survives(op, v) :: HandedTo(op, v)) +
    if op.Call? && m.wrappers[op.w].impl.Some? then {op.w} else {}
  }

  // The same over a whole program, next to Run.
  function RunSpent(m: Machine, spent: set<Name>, ops: seq<Op>): set<Name>
    decreases Size(ops) + Stored(m.targets)
  {
    if ops == [] then spent
    else if !Enabled(m, ops[0]) then
      RunSpent(m, spent, ops[1..])
    else
      StepShrinks(m, ops);
      RunSpent(Step(m, ops[0]), SpentAfter(m, spent, ops[0]), Upcall(m, ops[0]) + ops[1..])
  }

  predicate HasOnlyTable(m: Machine, w: Name) {
    w in m.wrappers && m.wrappers[w].hasTable && m.wrappers[w].impl.None?
  }

  ghost predicate Spent(m: Machine, spent: set<Name>) {
    && (forall w :: w in spent <==> HasOnlyTable(m, w))
    && (spent != {} ==> exists t :: Invoked(t) in m.trace)
  }

  lemma StepSpent(m: Machine, spent: set<Name>, op: Op)
    requires Linear(m) && Enabled(m, op) && Spent(m, spent)
    ensures Spent(Step(m, op), SpentAfter(m, spent, op))
  {
    hide Step, SpentAfter, HasOnlyTable, Linear;
    forall w
      ensures w in SpentAfter(m, spent, op) <==> HasOnlyTable(Step(m, op), w)
    {
      StepSpentAt(m, spent, op, w);
    }
    StepTraces(m, spent, op);
  }

  lemma StepSpentAt(m: Machine, spent: set<Name>, op: Op, w: Name)
    requires Linear(m) && Enabled(m, op) && Spent(m, spent)
    ensures w in SpentAfter(m, spent, op) <==> HasOnlyTable(Step(m, op), w)
  {
    var v := HeldBefore(op, w);
    assert Survives(op, v) && v in spent ==> HandedTo(op, v) in SpentAfter(m, spent, op);
    assert w in m.wrappers && m.wrappers[w].impl.Some? ==> Owns(m, w, m.wrappers[w].impl.value);
  }

  lemma StepTraces(m: Machine, spent: set<Name>, op: Op)
    requires Enabled(m, op)
    ensures SpentAfter(m, spent, op) != {} ==> spent != {} || exists t :: Invoked(t) in Step(m, op).trace
    ensures forall t :: Invoked(t) in m.trace ==> Invoked(t) in Step(m, op).trace
  {
    if op.Call? && m.wrappers[op.w].impl.Some? {
      var trace := Step(m, op).trace;
      assert trace[|trace| - 1] == Invoked(m.wrappers[op.w].impl.value);
    }
  }

  lemma {:induction false} RunKeepsSpent(m: Machine, spent: set<Name>, ops: seq<Op>)
    requires Inv(m) && Spent(m, spent)
    ensures Spent(Run(m, ops), RunSpent(m, spent, ops))
    decreases Size(ops) + Stored(m.targets)
  {
    hide Step, SpentAfter, Inv, Spent, Upcall;
    if ops != [] {
      if Enabled(m, ops[0]) {
        InvIsLinear(m);
        StepKeepsInv(m, ops[0]);
        StepSpent(m, spent, ops[0]);
        StepShrinks(m, ops);
        RunKeepsSpent(Step(m, ops[0]), SpentAfter(m, spent, ops[0]), Upcall(m, ops[0]) + ops[1..]);
      } else {
        RunKeepsSpent(m, spent, ops[1..]);
      }
    }
  }

  lemma InvIsLinear(m: Machine)
    requires Inv(m)
    ensures Linear(m)
  {
  }

  // After every program, the wrappers with a table and no target are exactly those that hold what
  // was called. So the table can be used as the test for a target exactly when none does, and in
  // particular as long as no target has been invoked.
  lemma TableMeansTargetIffNoneSpent(ops: seq<Op>)
    ensures forall w :: HasOnlyTable(Run(START, ops), w) <==> w in RunSpent(START, {}, ops)
    ensures TableMeansTarget(Run(START, ops)) <==> RunSpent(START, {}, ops) == {}
    ensures !TableMeansTarget(Run(START, ops)) ==> exists t :: Invoked(t) in Run(START, ops).trace
  {
    RunKeepsInv(START, ops);
    RunKeepsSpent(START, {}, ops);
    var m, spent := Run(START, ops), RunSpent(START, {}, ops);
    forall w | w in m.wrappers
      ensures (m.wrappers[w].hasTable <==> m.wrappers[w].impl.Some?) <==> !HasOnlyTable(m, w)
    {
      assert m.wrappers[w].impl.Some? ==> Owns(m, w, m.wrappers[w].impl.value);
    }
    if spent != {} {
      var w :| w in spent;
      assert HasOnlyTable(m, w);
    }
  }

  // ---- Who owns what after a step, and which program a call runs. ----

  // The target an operation takes from its owner: the one overwritten, emptied, called or destroyed.
  predicate TakesFrom(op: Op, w: Name) {
    match op
    case MoveAssign(w', from) => w == w' && w' != from
    case NullAssign(w') => w == w'
    case Call(w') => w == w'
    case Destroy(w') => w == w'
    case _ => false
  }

  // Every other target stays, with its program, and belongs to whoever its owner's content was handed to.
  lemma StepHandsOver(m: Machine, op: Op, w: Name, t: TargetId)
    requires Linear(m) && Enabled(m, op) && Owns(m, w, t)
    ensures TakesFrom(op, w) ==> !Live(Step(m, op), t)
    ensures !TakesFrom(op, w) ==>
              && Live(Step(m, op), t) && Step(m, op).targets[t] == m.targets[t]
              && Owns(Step(m, op), HandedTo(op, w), t)
  {
    assert Owns(m, op.w, t) ==> op.w == w;
    assert Live(m, t);
    if op.MoveAssign? || op.NullAssign? || op.Call? || op.Destroy? {
      var impl := m.wrappers[op.w].impl;
      assert impl.Some? ==> Owns(m, op.w, impl.value);
    }
  }

  // The bodies of all Construct operations carried out, in order, and what each invocation ran.
  datatype History = History(built: seq<seq<Op>>, ran: seq<(TargetId, seq<Op>)>)

  function Recorded(m: Machine, h: History, op: Op): History
    requires Enabled(m, op)
  {
    match op
    case Construct(_, body) => h.(built := h.built + [body])
    case Call(w) =>
      if m.wrappers[w].impl.Some? then h.(ran := h.ran + [(m.wrappers[w].impl.value, Upcall(m, op))]) else h
    case _ => h
  }

  // Next to Run: what it went through.
  function RunHistory(m: Machine, h: History, ops: seq<Op>): History
    decreases Size(ops) + Stored(m.targets)
  {
    if ops == [] then h
    else if !Enabled(m, ops[0]) then
      RunHistory(m, h, ops[1..])
    else
      StepShrinks(m, ops);
      RunHistory(Step(m, ops[0]), Recorded(m, h, ops[0]), Upcall(m, ops[0]) + ops[1..])
  }

  // Targets are numbered as they were built and hold what they were built with; and every invocation
  // ran what its target was built with.
  ghost predicate Remembers(m: Machine, h: History) {
    && |h.built| == |m.targets|
    && (forall t :: 0 <= t < |m.targets| && m.targets[t].Some? ==> m.targets[t].value == h.built[t])
    && (forall k :: 0 <= k < |h.ran| ==> h.ran[k].0 < |h.built| && h.ran[k].1 == h.built[h.ran[k].0])
  }

  lemma StepRemembers(m: Machine, h: History, op: Op)
    requires Linear(m) && Enabled(m, op) && Remembers(m, h)
    ensures Remembers(Step(m, op), Recorded(m, h, op))
  {
    if op.MoveAssign? || op.NullAssign? || op.Call? || op.Destroy? {
      var impl := m.wrappers[op.w].impl;
      assert impl.Some? ==> Owns(m, op.w, impl.value) && Live(m, impl.value);
    }
  }

  lemma {:induction false} RunRemembers(m: Machine, h: History, ops: seq<Op>)
    requires Inv(m) && Remembers(m, h)
    ensures Remembers(Run(m, ops), RunHistory(m, h, ops))
    decreases Size(ops) + Stored(m.targets)
  {
    hide Step, Recorded, Inv, Remembers, Upcall;
    if ops != [] {
      if Enabled(m, ops[0]) {
        InvIsLinear(m);
        StepKeepsInv(m, ops[0]);
        StepRemembers(m, h, ops[0]);
        StepShrinks(m, ops);
        RunRemembers(Step(m, ops[0]), Recorded(m, h, ops[0]), Upcall(m, ops[0]) + ops[1..]);
      } else {
        RunRemembers(m, h, ops[1..]);
      }
    }
  }

  // In every program, whichever wrapper holds a target when it is invoked, the program that runs is
  // the body of the Construct that made the target.
  lemma InvocationsRunWhatWasConstructed(ops: seq<Op>)
    ensures var h := RunHistory(START, History([], []), ops);
            && |h.built| == |Run(START, ops).targets|
            && forall k :: 0 <= k < |h.ran| ==> h.ran[k].0 < |h.built| && h.ran[k].1 == h.built[h.ran[k].0]
  {
    RunRemembers(START, History([], []), ops);
  }

  // In particular calling a wrapper right after its construction runs its body.
  lemma ConstructThenCall(m: Machine, w: Name, body: seq<Op>)
    requires Enabled(m, Construct(w, body))
    ensures var m' := Step(m, Construct(w, body));
            && Owns(m', w, |m.targets|) && Live(m', |m.targets|)
            && Enabled(m', Call(w)) && Upcall(m', Call(w)) == body
  {
  }
}
