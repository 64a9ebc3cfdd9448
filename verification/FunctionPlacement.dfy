/** Where the callables are: among wrappers of one capacity, whatever is done with them, a callable is held in place
    exactly when it fits, so that nothing is allocated needlessly. */
module FunctionPlacement {
  import opened Options
  import opened FunctionErasure

  /** Every wrapper has capacity c, and what it holds by a pointer does not fit. */
  ghost predicate Tight(fits: Fits, w: World, c: nat) {
    forall i :: i in w.wrappers ==>
      && w.wrappers[i].capacity == c
      && (w.wrappers[i].cmd != Empty ==> w.wrappers[i].storage < w.next)
      && (w.wrappers[i].cmd == Allocated && w.wrappers[i].storage in w.boxes ==>
            !fits(w.boxes[w.wrappers[i].storage].box, c))
  }

  // ---- The vtable commands ----

  lemma WeakDestroyTight(fits: Fits, w: World, i: WrapperId, c: nat)
    requires Tight(fits, w, c) && Alive(w, i)
    ensures Tight(fits, WeakDestroy(w, i), c)
  {
  }

  lemma ConstructTight(fits: Fits, w: World, to: WrapperId, box: Box, c: nat)
    requires Tight(fits, w, c) && to in w.wrappers
    ensures Tight(fits, Construct(fits, w, to, box), c)
  {
  }

  lemma TransferTight(fits: Fits, w: World, how: How, from: WrapperId, to: WrapperId, c: nat)
    requires Tight(fits, w, c) && Alive(w, from) && to in w.wrappers
    ensures Tight(fits, Transfer(fits, w, how, from, to), c)
  {
    if w.wrappers[from].cmd != Empty {
      ConstructTight(fits, w, to, w.boxes[w.wrappers[from].storage].box, c);
    }
  }

  // ---- What the operations are made of ----

  lemma ConstructedTight(fits: Fits, w: World, how: How, i: WrapperId, from: WrapperId, c: nat)
    requires Tight(fits, w, c)
    ensures var r := Constructed(fits, w, how, i, c, from); r.Some? ==> Tight(fits, r.value, c)
  {
    if Alive(w, from) && i !in w.wrappers {
      TransferTight(fits, Raw(w, i, c), how, from, i, c);
    }
  }

  lemma AssignedTight(fits: Fits, w: World, how: How, to: WrapperId, from: WrapperId, c: nat)
    requires Tight(fits, w, c)
    ensures var r := Assigned(fits, w, how, to, from); r.Some? ==> Tight(fits, r.value, c)
  {
    if Assignable(w, to, from) {
      WeakDestroyTight(fits, w, to, c);
      TransferTight(fits, WeakDestroy(w, to), how, from, to, c);
    }
  }

  lemma DestructedTight(fits: Fits, w: World, i: WrapperId, c: nat)
    requires Tight(fits, w, c)
    ensures var r := Destructed(w, i); r.Some? ==> Tight(fits, r.value, c)
  {
  }

  lemma NewTight(fits: Fits, w: World, i: WrapperId, callable: Option<Box>, c: nat)
    requires Tight(fits, w, c)
    ensures Tight(fits, NewFrom(fits, w, i, c, callable), c)
  {
    if callable.Some? {
      ConstructTight(fits, Raw(w, i, c), i, callable.value, c);
    }
  }

  lemma AssignTight(fits: Fits, w: World, i: WrapperId, callable: Option<Box>, c: nat)
    requires Tight(fits, w, c) && Alive(w, i)
    ensures Tight(fits, Assign(fits, w, i, callable), c)
  {
    WeakDestroyTight(fits, w, i, c);
    if callable.Some? {
      ConstructTight(fits, WeakDestroy(w, i), i, callable.value, c);
    }
  }

  // ---- Runs ----

  /** An operation that makes no wrapper of another capacity. */
  predicate OfCapacity(op: Op, c: nat) {
    op.New? || op.From? || op.Convert? ==> op.capacity == c
  }

  lemma StepTight(fits: Fits, w: World, op: Op, c: nat)
    requires Tight(fits, w, c) && OfCapacity(op, c) && Step(fits, w, op).Some?
    ensures Tight(fits, Step(fits, w, op).value, c)
  {
    var w1, w2: Option<World> := None, None;
    match op {
      case New(i, _, callable) =>
        NewTight(fits, w, i, callable, c);
      case From(how, i, _, from) =>
        ConstructedTight(fits, w, how, i, from, c);
      case Convert(how, i, _, from, temp) =>
        assert w.wrappers[from].capacity == c;
        hide Tight, Constructed, Destructed;
        ConstructedTight(fits, w, how, temp, from, c);
        w1 := Constructed(fits, w, how, temp, c, from);
        ConstructedTight(fits, w1.value, ByMove, i, temp, c);
        DestructedTight(fits, Constructed(fits, w1.value, ByMove, i, c, temp).value, temp, c);
      case Drop(i) => DestructedTight(fits, w, i, c);
      case Set(i, callable) => AssignTight(fits, w, i, callable, c);
      case SetFrom(how, i, from) => AssignedTight(fits, w, how, i, from, c);
      case SetConverted(how, i, from, temp) =>
        assert w.wrappers[from].capacity == c;
        hide Tight, Constructed, Assigned, Destructed;
        ConstructedTight(fits, w, how, temp, from, c);
        w1 := Constructed(fits, w, how, temp, c, from);
        AssignedTight(fits, w1.value, ByMove, i, temp, c);
        DestructedTight(fits, Assigned(fits, w1.value, ByMove, i, temp).value, temp, c);
      case Swap(i, other, temp) =>
        if i != other {
          assert w.wrappers[other].capacity == c;
          hide Tight, Constructed, Assigned, Destructed;
          ConstructedTight(fits, w, ByMove, temp, other, c);
          w1 := Constructed(fits, w, ByMove, temp, c, other);
          AssignedTight(fits, w1.value, ByMove, other, i, c);
          w2 := Assigned(fits, w1.value, ByMove, other, i);
          AssignedTight(fits, w2.value, ByMove, i, temp, c);
          DestructedTight(fits, Assigned(fits, w2.value, ByMove, i, temp).value, temp, c);
        }
    }
  }

  lemma {:induction false} RunTight(fits: Fits, w: World, ops: seq<Op>, c: nat)
    requires Tight(fits, w, c) && (forall i :: 0 <= i < |ops| ==> OfCapacity(ops[i], c)) && Run(fits, w, ops).Some?
    ensures Tight(fits, Run(fits, w, ops).value, c)
    decreases |ops|
  {
    hide Tight, Step;
    if ops == [] {
    } else {
      StepTight(fits, w, ops[0], c);
      RunTight(fits, Step(fits, w, ops[0]).value, ops[1..], c);
    }
  }

  /** Over every run from nothing with wrappers of one capacity, a wrapper holds its callable in place if it fits and by
      a pointer if it does not. */
  lemma PlacedExactly(fits: Fits, ops: seq<Op>, c: nat, i: WrapperId)
    requires AllAllowed(map[], ops) && (forall k :: 0 <= k < |ops| ==> OfCapacity(ops[k], c))
    ensures var r, m := Run(fits, START, ops), ValueRun(map[], ops);
      r.Some? && r.value.wrappers.Keys == m.Keys
      && (i in m ==>
            var cmd := r.value.wrappers[i].cmd;
            if m[i] == None then cmd == Empty else cmd == if fits(m[i].value, c) then Inplace else Allocated)
  {
    EveryBoxDestroyedOnce(fits, ops);
    RunTight(fits, START, ops, c);
    hide Run, ValueRun, AllAllowed;
    var w := Run(fits, START, ops).value;
    if i in ValueRun(map[], ops) {
      assert Alive(w, i) && Content(w, i) == ValueRun(map[], ops)[i];
      assert w.wrappers[i].cmd != Empty ==> Holds(w, {}, i);
    }
  }
}
