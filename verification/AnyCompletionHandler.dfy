// any_completion_handler as an object whose two pointers are traded and nulled, the heap of
// implementation objects behind it, and a set of wrappers driven by the operations of HandlerSpec.
module AnyCompletionHandler {
  import opened Options
  import opened HandlerSpec

  // The implementation objects on the heap, addressed by the order of their construction, and the
  // record of what happened to them.
  class Heap {
    var cells: seq<Option<seq<Op>>>
    var trace: seq<Event>

    constructor ()
      ensures cells == [] && trace == []
    {
      cells, trace := [], [];
    }

    // any_completion_handler_impl::create.
    method Create(body: seq<Op>) returns (t: TargetId)
      modifies this
      ensures t == |old(cells)| && cells == old(cells) + [Some(body)]
      ensures trace == old(trace) + [Created(t)]
    {
      t := |cells|;
      cells, trace := cells + [Some(body)], trace + [Created(t)];
    }

    // any_completion_handler_impl::destroy.
    method Destroy(t: TargetId)
      requires t < |cells|
      modifies this
      ensures cells == old(cells)[t := None] && trace == old(trace) + [Released(t)]
    {
      cells, trace := cells[t := None], trace + [Released(t)];
    }

    // any_completion_handler_impl::call: move the target out, give the storage back, and only then
    // invoke the target.
    method Call(t: TargetId) returns (upcall: seq<Op>)
      requires t < |cells| && cells[t].Some?
      modifies this
      ensures cells == old(cells)[t := None] && upcall == old(cells)[t].value
      ensures trace == old(trace) + [Released(t), Invoked(t)]
    {
      upcall := cells[t].value;
      Destroy(t);
      trace := trace + [Invoked(t)];
    }
  }

  class Handler {
    var fnTable: bool
    var impl: Option<TargetId>

    function View(): Wrapper
      reads this
    {
      Wrapper(fnTable, impl)
    }

    constructor ()
      ensures View() == NULL
    {
      fnTable, impl := false, None;
    }

    constructor FromTarget(body: seq<Op>, heap: Heap)
      modifies heap
      ensures View() == Wrapper(true, Some(|old(heap.cells)|))
      ensures heap.cells == old(heap.cells) + [Some(body)]
      ensures heap.trace == old(heap.trace) + [Created(|old(heap.cells)|)]
    {
      var t := heap.Create(body);
      fnTable, impl := true, Some(t);
    }

    constructor MoveFrom(other: Handler)
      modifies other
      ensures View() == old(other.View()) && other.View() == NULL
    {
      fnTable, impl := other.fnTable, other.impl;
      new;
      other.fnTable, other.impl := false, None;
    }

    method Swap(other: Handler)
      modifies this, other
      ensures View() == old(other.View()) && other.View() == old(View())
    {
      var table, target := fnTable, impl;
      fnTable, impl := other.fnTable, other.impl;
      other.fnTable, other.impl := table, target;
    }

    // The destructor.
    method Destroy(heap: Heap)
      requires impl.Some? ==> impl.value < |heap.cells|
      modifies heap
      ensures if impl.Some?
              then && heap.cells == old(heap.cells)[impl.value := None]
                   && heap.trace == old(heap.trace) + [Released(impl.value)]
              else heap.cells == old(heap.cells) && heap.trace == old(heap.trace)
    {
      if impl.Some? {
        heap.Destroy(impl.value);
      }
    }

    // Move assignment through a temporary, which takes the old target with it when it dies.
    // Assigning a wrapper to itself changes nothing.
    method MoveAssign(other: Handler, heap: Heap)
      requires impl.Some? ==> impl.value < |heap.cells|
      modifies this, other, heap
      ensures View() == old(other.View())
      ensures other != this ==> other.View() == NULL
      ensures if other != this && old(impl).Some?
              then && heap.cells == old(heap.cells)[old(impl).value := None]
                   && heap.trace == old(heap.trace) + [Released(old(impl).value)]
              else heap.cells == old(heap.cells) && heap.trace == old(heap.trace)
    {
      var temporary := new Handler.MoveFrom(other);
      temporary.Swap(this);
      temporary.Destroy(heap);
    }

    method NullAssign(heap: Heap)
      requires impl.Some? ==> impl.value < |heap.cells|
      modifies this, heap
      ensures View() == NULL
      ensures if old(impl).Some?
              then && heap.cells == old(heap.cells)[old(impl).value := None]
                   && heap.trace == old(heap.trace) + [Released(old(impl).value)]
              else heap.cells == old(heap.cells) && heap.trace == old(heap.trace)
    {
      var temporary := new Handler();
      temporary.Swap(this);
      temporary.Destroy(heap);
    }

    // operator(): empty the wrapper, then run the target; without one, throw bad_function_call.
    method Call(name: Name, heap: Heap) returns (upcall: seq<Op>)
      requires impl.Some? ==> impl.value < |heap.cells| && heap.cells[impl.value].Some?
      modifies this`impl, heap
      ensures View() == old(View()).(impl := None)
      ensures if old(impl).Some?
              then && heap.cells == old(heap.cells)[old(impl).value := None]
                   && heap.trace == old(heap.trace) + [Released(old(impl).value), Invoked(old(impl).value)]
                   && upcall == old(heap.cells)[old(impl).value].value
              else heap.cells == old(heap.cells) && heap.trace == old(heap.trace) + [BadCall(name)] && upcall == []
    {
      if impl.Some? {
        var target := impl.value;
        impl := None;
        upcall := heap.Call(target);
      } else {
        heap.trace := heap.trace + [BadCall(name)];
        upcall := [];
      }
    }
  }

  // The wrappers of a program, by name.
  class Wrappers {
    var slots: map<Name, Handler>
    const heap: Heap

    ghost function Repr(): set<object>
      reads this
    {
      {this, heap} + slots.Values
    }

    // Different names are different objects.
    ghost predicate Valid()
      reads this
    {
      forall w, w' :: w in slots && w' in slots && slots[w] == slots[w'] ==> w == w'
    }

    ghost function Abs(): Machine
      reads this, slots.Values, heap
    {
      Machine(map w | w in slots :: slots[w].View(), heap.cells, heap.trace)
    }

    constructor ()
      ensures Valid() && Abs() == START && fresh(Repr())
    {
      slots := map[];
      heap := new Heap();
    }

    lemma AbsNames()
      ensures Abs().wrappers.Keys == slots.Keys
    {
    }

    method Bind(w: Name, h: Handler)
      requires Valid() && h !in slots.Values
      modifies this`slots
      ensures Valid() && slots == old(slots)[w := h] && Repr() <= old(Repr()) + {h}
      ensures Abs() == old(Abs()).(wrappers := old(Abs()).wrappers[w := h.View()])
    {
      slots := slots[w := h];
    }

    method CreateEmpty(op: Op)
      requires Valid() && op.Empty? && Enabled(Abs(), op)
      modifies this`slots
      ensures Valid() && fresh(Repr() - old(Repr()))
      ensures Abs() == Step(old(Abs()), op)
    {
      var h := new Handler();
      Bind(op.w, h);
    }

    method Create(op: Op)
      requires Valid() && op.Construct? && Enabled(Abs(), op)
      modifies this`slots, heap
      ensures Valid() && fresh(Repr() - old(Repr()))
      ensures Abs() == Step(old(Abs()), op)
    {
      hide Release;
      var h := new Handler.FromTarget(op.body, heap);
      Bind(op.w, h);
    }

    // The new wrapper of a move construction, before it has a name.
    method Emptied(from: Name) returns (h: Handler)
      requires Valid() && from in slots
      modifies slots[from]
      ensures fresh(h) && h.View() == old(Abs()).wrappers[from]
      ensures Abs() == old(Abs()).(wrappers := old(Abs()).wrappers[from := NULL])
    {
      h := new Handler.MoveFrom(slots[from]);
    }

    method MoveInto(op: Op)
      requires Valid() && op.MoveConstruct? && Enabled(Abs(), op)
      modifies this`slots, slots[op.from]
      ensures Valid() && fresh(Repr() - old(Repr()))
      ensures Abs() == Step(old(Abs()), op)
    {
      hide Abs, Repr, Step;
      AbsNames();
      MoveConstructStep(Abs(), op);
      var h := Emptied(op.from);
      Bind(op.w, h);
    }

    method Exchange(op: Op)
      requires Valid() && op.Swap? && Enabled(Abs(), op)
      modifies slots[op.w], slots[op.other]
      ensures Abs() == Step(old(Abs()), op)
    {
      slots[op.w].Swap(slots[op.other]);
    }

    method Assign(op: Op)
      requires Valid() && (op.MoveAssign? || op.NullAssign?) && Enabled(Abs(), op)
      requires slots[op.w].impl.Some? ==> slots[op.w].impl.value < |heap.cells|
      modifies slots.Values, heap
      ensures Abs() == Step(old(Abs()), op)
    {
      if op.MoveAssign? {
        slots[op.w].MoveAssign(slots[op.from], heap);
      } else {
        slots[op.w].NullAssign(heap);
      }
    }

    method Remove(op: Op)
      requires Valid() && op.Destroy? && Enabled(Abs(), op)
      requires slots[op.w].impl.Some? ==> slots[op.w].impl.value < |heap.cells|
      modifies this`slots, heap
      ensures Valid() && Repr() <= old(Repr())
      ensures Abs() == Step(old(Abs()), op)
    {
      hide Abs, Step;
      AbsNames();
      DestroyStep(Abs(), op);
      DestroyTarget(op.w);
      Forget(op.w);
    }

    method DestroyTarget(w: Name)
      requires Valid() && w in slots && (slots[w].impl.Some? ==> slots[w].impl.value < |heap.cells|)
      modifies heap
      ensures Abs() == Release(old(Abs()), old(Abs()).wrappers[w].impl)
    {
      slots[w].Destroy(heap);
    }

    method Forget(w: Name)
      requires Valid()
      modifies this`slots
      ensures Valid() && Repr() <= old(Repr())
      ensures Abs() == old(Abs()).(wrappers := old(Abs()).wrappers - {w})
    {
      slots := slots - {w};
    }

    method Invoke(op: Op) returns (upcall: seq<Op>)
      requires Valid() && op.Call? && Enabled(Abs(), op)
      requires slots[op.w].impl.Some? ==> Live(Abs(), slots[op.w].impl.value)
      modifies slots[op.w], heap
      ensures Abs() == Step(old(Abs()), op)
      ensures upcall == Upcall(old(Abs()), op)
    {
      upcall := slots[op.w].Call(op.w, heap);
    }

    // One operation, whatever it is.
    method Perform(op: Op) returns (upcall: seq<Op>)
      requires Valid() && Enabled(Abs(), op) && Inv(Abs())
      modifies Repr()
      ensures Valid() && fresh(Repr() - old(Repr()))
      ensures Abs() == Step(old(Abs()), op) && upcall == Upcall(old(Abs()), op)
    {
      upcall := [];
      assert op.w in slots && slots[op.w].impl.Some? ==> Owns(Abs(), op.w, slots[op.w].impl.value);
      match op {
        case Empty(_) => CreateEmpty(op);
        case Construct(_, _) => Create(op);
        case MoveConstruct(_, _) => MoveInto(op);
        case MoveAssign(_, _) => Assign(op);
        case NullAssign(_) => Assign(op);
        case Swap(_, _) => Exchange(op);
        case Call(_) => upcall := Invoke(op);
        case Destroy(_) => Remove(op);
      }
    }

    method Available(op: Op) returns (ok: bool)
      ensures ok == Enabled(Abs(), op)
    {
      ok := match op
        case Empty(w) => w !in slots
        case Construct(w, _) => w !in slots
        case MoveConstruct(w, from) => w !in slots && from in slots
        case MoveAssign(w, from) => w in slots && from in slots
        case NullAssign(w) => w in slots
        case Swap(w, other) => w in slots && other in slots
        case Call(w) => w in slots
        case Destroy(w) => w in slots;
    }

    // A whole program: a called target runs to its end before the caller goes on.
    method Execute(ops: seq<Op>)
      requires Valid() && Inv(Abs())
      modifies Repr()
      ensures Valid() && fresh(Repr() - old(Repr()))
      ensures Abs() == Run(old(Abs()), ops) && Inv(Abs())
    {
      var rest := ops;
      while rest != []
        invariant Valid() && fresh(Repr() - old(Repr())) && Inv(Abs())
        invariant Run(Abs(), rest) == Run(old(Abs()), ops)
        decreases Size(rest) + Stored(Abs().targets)
      {
        var op := rest[0];
        ghost var m := Abs();
        var enabled := Available(op);
        if enabled {
          StepKeepsInv(m, op);
          StepShrinks(m, rest);
          var upcall := Perform(op);
          rest := upcall + rest[1..];
        } else {
          rest := rest[1..];
        }
      }
    }
  }
}
