/** Every run of signal and target operations, the disconnecting of multiple connections included: exactly when a signal
    is left pointing at a destroyed target, and exactly when such a pointer is followed. */
module SigslotRuns {
  import opened Options
  import opened Sigslot

  /** s calls t and t does not know it, so that the end of t, past or to come, goes unnoticed. */
  predicate Loose<S(==), T(==)>(n: Net<S, T>, s: S, t: T) {
    Connected(n, s, t) && !Registered(n, s, t)
  }

  /** The one operation that loosens a pair: disconnecting it when it has several connections. */
  predicate Loosens<S(==), T(==)>(n: Net<S, T>, op: Op<S, T>, s: S, t: T)
    requires Allowed(n, op)
  {
    op == Disconnect(s, t) && Count(n.signals[s], t) > 1
  }

  /** The operations after which a loose pair is connected on both sides or on none, unless it is loosened again. */
  predicate Settles<S(==), T(==)>(n: Net<S, T>, op: Op<S, T>, s: S, t: T) {
    match op
    case Connect(a, b, _) => a == s && b == t
    case Disconnect(a, b) => a == s && b == t
    case ClearSignal(a) => a == s
    case DestroySignal(a) => a == s
    case CopyTarget(source, b) => b == t && Registered(n, s, source)
    case _ => false
  }

  lemma LooseStep<S, T>(n: Net<S, T>, op: Op<S, T>, s: S, t: T)
    requires Backed(n) && Allowed(n, op) && Step(n, op).Some?
    ensures Loose(Step(n, op).value, s, t) <==> Loosens(n, op, s, t) || (Loose(n, s, t) && !Settles(n, op, s, t))
  {
    PairAfter(n, op, s, t);
    if op.Disconnect? {
      HeardDestsFrom(n, op.s, op.t);
    }
    assert Registered(n, s, t) ==> Connected(n, s, t);
    if op.CopyTarget? {
      assert Registered(n, s, op.source) ==> Connected(n, s, op.source);
      RegisteredAlive(n, s, op.t);
    }
    hide Step, Backed, Registered;
  }

  // ---- Runs ----

  /** Nothing in the run settles the pair. */
  predicate LeftAlone<S(==), T(==)>(n: Net<S, T>, ops: seq<Op<S, T>>, s: S, t: T)
    requires AllAllowed(n, ops)
    decreases |ops|
  {
    ops == [] || (
      && !Settles(n, ops[0], s, t)
      && (Step(n, ops[0]).Some? ==> LeftAlone(Step(n, ops[0]).value, ops[1..], s, t)))
  }

  /** At some point the pair is disconnected while it has several connections, and nothing settles it afterwards. */
  predicate LoosenedForGood<S(==), T(==)>(n: Net<S, T>, ops: seq<Op<S, T>>, s: S, t: T)
    requires AllAllowed(n, ops)
    decreases |ops|
  {
    ops != [] && Step(n, ops[0]).Some? && (
      var r := Step(n, ops[0]).value;
      (Loosens(n, ops[0], s, t) && LeftAlone(r, ops[1..], s, t)) || LoosenedForGood(r, ops[1..], s, t))
  }

  lemma {:induction false} LooseAfter<S, T>(n: Net<S, T>, ops: seq<Op<S, T>>, s: S, t: T)
    requires Backed(n) && AllAllowed(n, ops) && Run(n, ops).Some?
    ensures Loose(Run(n, ops).value, s, t)
       <==> LoosenedForGood(n, ops, s, t) || (Loose(n, s, t) && LeftAlone(n, ops, s, t))
    decreases |ops|
  {
    if ops == [] {
    } else {
      LooseStep(n, ops[0], s, t);
      BackedAlways(n, ops[0]);
      hide Step, Backed, Loose, Loosens, Settles;
      LooseAfter(Step(n, ops[0]).value, ops[1..], s, t);
    }
  }

  /** s calls a target that is no more. */
  predicate Dangles<S(==), T(==)>(n: Net<S, T>, s: S, t: T) {
    Connected(n, s, t) && t !in n.targets
  }

  /** Over every run from nothing: a signal is left pointing at a destroyed target exactly when the two were
      disconnected while they had several connections, nothing has settled the pair since, and the target is gone. */
  lemma DanglesExactly<S, T>(ops: seq<Op<S, T>>, s: S, t: T)
    requires AllAllowed(Net(map[], map[]), ops) && Run(Net(map[], map[]), ops).Some?
    ensures var r := Run(Net(map[], map[]), ops).value;
      Dangles(r, s, t) <==> t !in r.targets && LoosenedForGood(Net(map[], map[]), ops, s, t)
  {
    var empty: Net<S, T> := Net(map[], map[]);
    assert Backed(empty) && !Connected(empty, s, t);
    LooseAfter(empty, ops, s, t);
    RegisteredAlive(Run(empty, ops).value, s, t);
  }

  // ---- When such a pointer is followed ----

  /** The signal whose connections the operation goes through to reach their targets. */
  function Follows<S, T>(op: Op<S, T>): Option<S> {
    match op
    case ClearSignal(s) => Some(s)
    case DestroySignal(s) => Some(s)
    case CopySignal(from, _) => Some(from)
    case _ => None
  }

  ghost predicate FollowsDangling<S(!new), T(!new)>(n: Net<S, T>, op: Op<S, T>) {
    Follows(op).Some? && exists t :: Dangles(n, Follows(op).value, t)
  }

  /** An operation uses a destroyed object exactly when it clears, copies or destroys a signal that dangles. */
  lemma StuckExactly<S(!new), T(!new)>(n: Net<S, T>, op: Op<S, T>)
    requires Backed(n) && Allowed(n, op)
    ensures Step(n, op) == None <==> FollowsDangling(n, op)
  {
    forall t | t in n.targets ensures Called(n, t) {
      assert forall s :: s in n.targets[t] ==> Connected(n, s, t);
    }
    if Follows(op).Some? {
      CallsExactly(n, Follows(op).value);
    }
  }

  lemma CallsExactly<S(!new), T(!new)>(n: Net<S, T>, s: S)
    requires s in n.signals
    ensures Calls(n, s) <==> !exists t :: Dangles(n, s, t)
  {
    if t :| Dangles(n, s, t) {
      ConnectedDests(n, s, t);
      assert exists x :: x in n.signals[s] && x.dest == t;
    }
    if x :| x in n.signals[s] && x.dest !in n.targets {
      assert x.dest in Dests(n.signals[s]);
      ConnectedDests(n, s, x.dest);
      assert Dangles(n, s, x.dest);
    }
  }

  /** Some operation of the run follows a dangling pointer. */
  ghost predicate SomeFollows<S(!new), T(!new)>(n: Net<S, T>, ops: seq<Op<S, T>>)
    requires AllAllowed(n, ops)
    decreases |ops|
  {
    ops != [] && (
      || FollowsDangling(n, ops[0])
      || (Step(n, ops[0]).Some? && SomeFollows(Step(n, ops[0]).value, ops[1..])))
  }

  lemma {:induction false} RunFails<S(!new), T(!new)>(n: Net<S, T>, ops: seq<Op<S, T>>)
    requires Backed(n) && AllAllowed(n, ops)
    ensures Run(n, ops) == None <==> SomeFollows(n, ops)
    decreases |ops|
  {
    if ops == [] {
    } else {
      StuckExactly(n, ops[0]);
      if Step(n, ops[0]).Some? {
        BackedAlways(n, ops[0]);
        hide Step, Backed, FollowsDangling;
        RunFails(Step(n, ops[0]).value, ops[1..]);
      }
    }
  }

  /** Over every run from nothing: an object is used after its destruction exactly when some operation clears, copies or
      destroys a signal that dangles at that point. */
  lemma RunFailsExactly<S(!new), T(!new)>(ops: seq<Op<S, T>>)
    requires AllAllowed(Net(map[], map[]), ops)
    ensures Run(Net(map[], map[]), ops) == None <==> SomeFollows(Net(map[], map[]), ops)
  {
    var empty: Net<S, T> := Net(map[], map[]);
    assert Backed(empty);
    RunFails(empty, ops);
  }

  // ---- Assignment ----

  /** The assignment of targets that the compiler writes: the senders are copied, and none of them is told. */
  function AssignTarget<S(==), T(==)>(n: Net<S, T>, source: T, t: T): Net<S, T>
    requires source in n.targets && t in n.targets
  {
    n.(targets := n.targets[t := n.targets[source]])
  }

  /** It leaves the two sides in agreement only where there was nothing to assign. */
  lemma AssignedTargetExactly<S, T>(n: Net<S, T>, source: T, t: T)
    requires Linked(n) && source in n.targets && t in n.targets
    ensures Linked(AssignTarget(n, source, t)) <==> n.targets[source] == n.targets[t]
  {
    var r := AssignTarget(n, source, t);
    if n.targets[source] == n.targets[t] {
      assert r == n;
    } else if Linked(r) {
      forall s ensures s in n.targets[source] <==> s in n.targets[t] {
        LinkedPair(n, s, t);
        LinkedPair(r, s, t);
        assert HeardFrom(r, s, t) == HeardFrom(n, s, t);
      }
    }
  }
}
