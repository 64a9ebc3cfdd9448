/** sigslot: signals keep a list of connections to targets, targets keep the set of signals that call them, and
    each side updates the other. S and T are the addresses of signals and targets. */
module Sigslot {

  import opened Options
  import opened Sequences

  datatype Connection<T> = Connection(dest: T, memfun: nat)

  /** The live signals with their connections in order, and the live targets with their senders. */
  datatype Net<S, T> = Net(signals: map<S, seq<Connection<T>>>, targets: map<T, set<S>>)

  // ---- Connection lists ----

  function Dests<T>(c: seq<Connection<T>>): set<T> {
    set x | x in c :: x.dest
  }

  function Count<T(==)>(c: seq<Connection<T>>, t: T): nat {
    if c == [] then 0 else (if c[0].dest == t then 1 else 0) + Count(c[1..], t)
  }

  /** The functions an emission calls on t, in order. */
  function Heard<T(==)>(c: seq<Connection<T>>, t: T): seq<nat> {
    if c == [] then [] else (if c[0].dest == t then [c[0].memfun] else []) + Heard(c[1..], t)
  }

  /** The connections but those to t. */
  function Without<T(==)>(c: seq<Connection<T>>, t: T): seq<Connection<T>> {
    if c == [] then [] else (if c[0].dest == t then [] else [c[0]]) + Without(c[1..], t)
  }

  /** The connections but the first one to t. */
  function DropFirst<T(==)>(c: seq<Connection<T>>, t: T): seq<Connection<T>> {
    if c == [] then [] else if c[0].dest == t then c[1..] else [c[0]] + DropFirst(c[1..], t)
  }

  /** A copy, to `to`, of each connection to `from`. */
  function Redirected<T(==)>(c: seq<Connection<T>>, from: T, to: T): seq<Connection<T>> {
    if c == [] then [] else (if c[0].dest == from then [c[0].(dest := to)] else []) + Redirected(c[1..], from, to)
  }

  lemma {:induction false} CountDests<T>(c: seq<Connection<T>>, t: T)
    ensures Count(c, t) > 0 <==> t in Dests(c)
    ensures |Heard(c, t)| == Count(c, t)
  {
    if c == [] {
    } else {
      CountDests(c[1..], t);
      assert c == [c[0]] + c[1..];
      assert Dests(c) == {c[0].dest} + Dests(c[1..]);
    }
  }

  lemma DestsAppend<T>(c: seq<Connection<T>>, d: seq<Connection<T>>)
    ensures Dests(c + d) == Dests(c) + Dests(d)
  {
    assert forall x :: x in c + d <==> x in c || x in d;
  }

  lemma {:induction false} HeardAppend<T>(c: seq<Connection<T>>, d: seq<Connection<T>>, u: T)
    ensures Heard(c + d, u) == Heard(c, u) + Heard(d, u)
  {
    if c == [] {
      assert c + d == d;
    } else {
      var first := if c[0].dest == u then [c[0].memfun] else [];
      HeardAppend(c[1..], d, u);
      assert (c + d)[0] == c[0] && (c + d)[1..] == c[1..] + d;
      assert Heard(c + d, u) == first + Heard(c[1..] + d, u) && Heard(c, u) == first + Heard(c[1..], u);
      hide Heard;
      Regroup(first, Heard(c[1..], u), Heard(d, u));
    }
  }

  /** Without silences t and changes nothing for the others. */
  lemma {:induction false} WithoutHeard<T>(c: seq<Connection<T>>, t: T, u: T)
    ensures Heard(Without(c, t), u) == if u == t then [] else Heard(c, u)
  {
    if c == [] {
    } else {
      WithoutHeard(c[1..], t, u);
      HeardAppend(if c[0].dest == t then [] else [c[0]], Without(c[1..], t), u);
    }
  }

  /** DropFirst takes the first function of t off and changes nothing for the others. */
  lemma {:induction false} DropFirstHeard<T>(c: seq<Connection<T>>, t: T, u: T)
    requires Count(c, t) > 0
    ensures |Heard(c, t)| == Count(c, t)
    ensures Heard(DropFirst(c, t), u) == if u == t then Heard(c, t)[1..] else Heard(c, u)
  {
    CountDests(c, t);
    if c[0].dest == t {
      assert Heard(c, t)[1..] == Heard(c[1..], t);
    } else {
      DropFirstHeard(c[1..], t, u);
      HeardAppend([c[0]], DropFirst(c[1..], t), u);
    }
  }

  /** The new target is told what the old one is told, in the same order; nobody else gets anything. */
  lemma {:induction false} RedirectedHeard<T>(c: seq<Connection<T>>, from: T, to: T, u: T)
    ensures Heard(Redirected(c, from, to), u) == if u == to then Heard(c, from) else []
  {
    if c == [] {
    } else {
      RedirectedHeard(c[1..], from, to, u);
      HeardAppend(if c[0].dest == from then [c[0].(dest := to)] else [], Redirected(c[1..], from, to), u);
    }
  }

  lemma {:induction false} RedirectedAppend<T>(c: seq<Connection<T>>, d: seq<Connection<T>>, from: T, to: T)
    ensures Redirected(c + d, from, to) == Redirected(c, from, to) + Redirected(d, from, to)
  {
    if c == [] {
      assert c + d == d;
    } else {
      var first := if c[0].dest == from then [c[0].(dest := to)] else [];
      var rest := c[1..];
      RedirectedAppend(rest, d, from, to);
      assert (c + d)[0] == c[0] && (c + d)[1..] == rest + d;
      assert Redirected(c + d, from, to) == first + Redirected(rest + d, from, to);
      assert Redirected(c, from, to) == first + Redirected(rest, from, to);
      hide Redirected;
      Regroup(first, Redirected(rest, from, to), Redirected(d, from, to));
    }
  }

  lemma {:induction false} RedirectedDests<T>(c: seq<Connection<T>>, from: T, to: T)
    ensures forall x :: x in Redirected(c, from, to) ==> x.dest == to
  {
    if c == [] {
    } else {
      RedirectedDests(c[1..], from, to);
    }
  }

  // ---- The operations ----

  datatype Op<S, T> =
    | NewSignal(s: S)
    | NewTarget(t: T)
    | Connect(s: S, t: T, memfun: nat)
    | Disconnect(s: S, t: T)
    | ClearSignal(s: S)
    | ClearTarget(t: T)
    | CopySignal(from: S, s: S)
    | CopyTarget(source: T, t: T)
    | DestroySignal(s: S)
    | DestroyTarget(t: T)

  /** What a caller must see to: objects are alive when used, and new ones have addresses of their own. */
  predicate Allowed<S(==), T(==)>(n: Net<S, T>, op: Op<S, T>) {
    match op
    case NewSignal(s) => s !in n.signals
    case NewTarget(t) => t !in n.targets
    case Connect(s, t, _) => s in n.signals && t in n.targets
    case Disconnect(s, t) => s in n.signals && t in n.targets
    case ClearSignal(s) => s in n.signals
    case ClearTarget(t) => t in n.targets
    case CopySignal(from, s) => from in n.signals && s !in n.signals
    case CopyTarget(source, t) => source in n.targets && t !in n.targets
    case DestroySignal(s) => s in n.signals
    case DestroyTarget(t) => t in n.targets
  }

  /** Every connection of s leads to a live target. */
  predicate Calls<S(==), T(==)>(n: Net<S, T>, s: S) {
    s in n.signals && forall x :: x in n.signals[s] ==> x.dest in n.targets
  }

  /** Every sender of t is a live signal. */
  predicate Called<S(==), T(==)>(n: Net<S, T>, t: T) {
    t in n.targets && forall s :: s in n.targets[t] ==> s in n.signals
  }

  function ConnectStep<S(==), T(==)>(n: Net<S, T>, s: S, t: T, memfun: nat): Net<S, T>
    requires s in n.signals && t in n.targets
  {
    Net(n.signals[s := n.signals[s] + [Connection(t, memfun)]], n.targets[t := n.targets[t] + {s}])
  }

  /** Drops the first connection to t; the sender goes even when further connections to t remain. */
  function DisconnectStep<S(==), T(==)>(n: Net<S, T>, s: S, t: T): Net<S, T>
    requires s in n.signals && t in n.targets
  {
    if t in Dests(n.signals[s]) then
      Net(n.signals[s := DropFirst(n.signals[s], t)], n.targets[t := n.targets[t] - {s}])
    else
      n
  }

  function ClearSignalStep<S(==), T(==)>(n: Net<S, T>, s: S): Net<S, T>
    requires Calls(n, s)
  {
    Net(n.signals[s := []],
        map t | t in n.targets :: if t in Dests(n.signals[s]) then n.targets[t] - {s} else n.targets[t])
  }

  function ClearTargetStep<S(==), T(==)>(n: Net<S, T>, t: T): Net<S, T>
    requires Called(n, t)
  {
    Net(map s | s in n.signals :: if s in n.targets[t] then Without(n.signals[s], t) else n.signals[s],
        n.targets[t := {}])
  }

  function CopySignalStep<S(==), T(==)>(n: Net<S, T>, from: S, s: S): Net<S, T>
    requires Calls(n, from)
  {
    Net(n.signals[s := n.signals[from]],
        map t | t in n.targets :: if t in Dests(n.signals[from]) then n.targets[t] + {s} else n.targets[t])
  }

  function CopyTargetStep<S(==), T(==)>(n: Net<S, T>, from: T, t: T): Net<S, T>
    requires Called(n, from)
  {
    Net(map s | s in n.signals ::
          if s in n.targets[from] then n.signals[s] + Redirected(n.signals[s], from, t) else n.signals[s],
        n.targets[t := n.targets[from]])
  }

  /** None when the operation would follow a pointer to a destroyed object. */
  function Step<S(==), T(==)>(n: Net<S, T>, op: Op<S, T>): Option<Net<S, T>>
    requires Allowed(n, op)
  {
    match op
    case NewSignal(s) => Some(n.(signals := n.signals[s := []]))
    case NewTarget(t) => Some(n.(targets := n.targets[t := {}]))
    case Connect(s, t, memfun) => Some(ConnectStep(n, s, t, memfun))
    case Disconnect(s, t) => Some(DisconnectStep(n, s, t))
    case ClearSignal(s) => if Calls(n, s) then Some(ClearSignalStep(n, s)) else None
    case ClearTarget(t) => if Called(n, t) then Some(ClearTargetStep(n, t)) else None
    case CopySignal(from, s) => if Calls(n, from) then Some(CopySignalStep(n, from, s)) else None
    case CopyTarget(source, t) => if Called(n, source) then Some(CopyTargetStep(n, source, t)) else None
    case DestroySignal(s) =>
      if Calls(n, s) then var r := ClearSignalStep(n, s); Some(r.(signals := r.signals - {s})) else None
    case DestroyTarget(t) =>
      if Called(n, t) then var r := ClearTargetStep(n, t); Some(r.(targets := r.targets - {t})) else None
  }

  // ---- The two sides ----

  /** What an emission of s calls on t, in order. */
  function HeardFrom<S(==), T(==)>(n: Net<S, T>, s: S, t: T): seq<nat> {
    if s in n.signals then Heard(n.signals[s], t) else []
  }

  predicate Connected<S(==), T(==)>(n: Net<S, T>, s: S, t: T) {
    HeardFrom(n, s, t) != []
  }

  predicate Registered<S(==), T(==)>(n: Net<S, T>, s: S, t: T) {
    t in n.targets && s in n.targets[t]
  }

  /** What each operation does to what s calls on t. */
  function HeardAfter<S(==), T(==)>(n: Net<S, T>, op: Op<S, T>, s: S, t: T): seq<nat> {
    var heard := HeardFrom(n, s, t);
    match op
    case NewSignal(_) => heard
    case NewTarget(_) => heard
    case Connect(a, b, memfun) => if s == a && t == b then heard + [memfun] else heard
    case Disconnect(a, b) => if s == a && t == b && heard != [] then heard[1..] else heard
    case ClearSignal(a) => if s == a then [] else heard
    case ClearTarget(b) => if t == b && Registered(n, s, t) then [] else heard
    case CopySignal(from, a) => if s == a then HeardFrom(n, from, t) else heard
    case CopyTarget(source, b) => if t == b && Registered(n, s, source) then heard + HeardFrom(n, s, source) else heard
    case DestroySignal(a) => if s == a then [] else heard
    case DestroyTarget(b) => if t == b && Registered(n, s, t) then [] else heard
  }

  /** What each operation does to whether t knows s as a sender. */
  predicate RegisteredAfter<S(==), T(==)>(n: Net<S, T>, op: Op<S, T>, s: S, t: T) {
    match op
    case NewSignal(_) => Registered(n, s, t)
    case NewTarget(_) => Registered(n, s, t)
    case Connect(a, b, _) => (s == a && t == b) || Registered(n, s, t)
    case Disconnect(a, b) => Registered(n, s, t) && !(s == a && t == b && Connected(n, s, t))
    case ClearSignal(a) => Registered(n, s, t) && !(s == a && Connected(n, s, t))
    case ClearTarget(b) => Registered(n, s, t) && t != b
    case CopySignal(from, a) => Registered(n, s, t) || (s == a && Connected(n, from, t))
    case CopyTarget(source, b) => if t == b then Registered(n, s, source) else Registered(n, s, t)
    case DestroySignal(a) => Registered(n, s, t) && !(s == a && Connected(n, s, t))
    case DestroyTarget(b) => Registered(n, s, t) && t != b
  }

  lemma ConnectedDests<S, T>(n: Net<S, T>, s: S, t: T)
    requires s in n.signals
    ensures Connected(n, s, t) <==> t in Dests(n.signals[s])
  {
    CountDests(n.signals[s], t);
  }

  /** Every operation, seen from one pair. */
  lemma PairAfter<S, T>(n: Net<S, T>, op: Op<S, T>, s: S, t: T)
    requires Allowed(n, op) && Step(n, op).Some?
    ensures var r := Step(n, op).value;
      HeardFrom(r, s, t) == HeardAfter(n, op, s, t) && (Registered(r, s, t) <==> RegisteredAfter(n, op, s, t))
  {
    HeardStep(n, op, s, t);
    RegisteredStep(n, op, s, t);
  }

  lemma HeardStep<S, T>(n: Net<S, T>, op: Op<S, T>, s: S, t: T)
    requires Allowed(n, op) && Step(n, op).Some?
    ensures HeardFrom(Step(n, op).value, s, t) == HeardAfter(n, op, s, t)
  {
    hide Heard, Dests, Without, DropFirst, Redirected, Calls, Called;
    match op {
      case Connect(a, b, memfun) =>
        HeardAppend(n.signals[a], [Connection(b, memfun)], t);
        HeardOne(Connection(b, memfun), t);
      case Disconnect(a, b) =>
        ConnectedDests(n, a, b);
        CountDests(n.signals[a], b);
        if Connected(n, a, b) {
          DropFirstHeard(n.signals[a], b, t);
        }
      case ClearTarget(b) => if s in n.signals { WithoutHeard(n.signals[s], b, t); }
      case DestroyTarget(b) => if s in n.signals { WithoutHeard(n.signals[s], b, t); }
      case CopyTarget(source, b) =>
        if s in n.signals {
          HeardAppend(n.signals[s], Redirected(n.signals[s], source, b), t);
          RedirectedHeard(n.signals[s], source, b, t);
        }
      case NewSignal(_) => HeardNothing(t);
      case ClearSignal(_) => HeardNothing(t);
      case DestroySignal(_) => HeardNothing(t);
      case _ =>
    }
  }

  lemma HeardNothing<T>(t: T)
    ensures Heard<T>([], t) == []
  {}

  lemma HeardOne<T>(x: Connection<T>, t: T)
    ensures Heard([x], t) == if x.dest == t then [x.memfun] else []
  {}

  lemma RegisteredStep<S, T>(n: Net<S, T>, op: Op<S, T>, s: S, t: T)
    requires Allowed(n, op) && Step(n, op).Some?
    ensures Registered(Step(n, op).value, s, t) <==> RegisteredAfter(n, op, s, t)
  {
    hide Heard, Dests, Without, DropFirst, Redirected, HeardFrom, Called, Connected;
    match op {
      case Disconnect(a, b) => ConnectedDests(n, a, b);
      case ClearSignal(a) => ConnectedDests(n, a, t);
      case DestroySignal(a) => ConnectedDests(n, a, t);
      case CopySignal(from, a) => ConnectedDests(n, from, t); if t in Dests(n.signals[from]) { CallsDests(n, from, t); }
      case _ =>
    }
  }

  lemma CallsDests<S, T>(n: Net<S, T>, s: S, t: T)
    requires Calls(n, s) && t in Dests(n.signals[s])
    ensures t in n.targets
  {}

  // ---- What every run keeps ----

  /** Every registered sender is a live signal with a connection. */
  ghost predicate Backed<S, T>(n: Net<S, T>) {
    forall t :: t in n.targets ==> forall s :: s in n.targets[t] ==> Connected(n, s, t)
  }

  /** Every connection leads to a live target that has the sender registered. */
  ghost predicate Announced<S, T>(n: Net<S, T>) {
    forall s :: s in n.signals ==> forall t :: t in Dests(n.signals[s]) ==> Registered(n, s, t)
  }

  /** The two sides agree. */
  ghost predicate Linked<S, T>(n: Net<S, T>) {
    Backed(n) && Announced(n)
  }

  lemma LinkedPair<S, T>(n: Net<S, T>, s: S, t: T)
    requires Linked(n)
    ensures Connected(n, s, t) <==> Registered(n, s, t)
  {
    if Connected(n, s, t) {
      ConnectedDests(n, s, t);
    }
  }

  /** A registered sender is connected, whatever is done. */
  lemma BackedAlways<S, T>(n: Net<S, T>, op: Op<S, T>)
    requires Backed(n) && Allowed(n, op) && Step(n, op).Some?
    ensures Backed(Step(n, op).value)
  {
    var r := Step(n, op).value;
    forall t, s | t in r.targets && s in r.targets[t] ensures Connected(r, s, t) {
      PairAfter(n, op, s, t);
      assert Registered(n, s, t) ==> Connected(n, s, t);
      if op.CopyTarget? {
        assert Registered(n, s, op.source) ==> Connected(n, s, op.source);
      }
      hide Step;
    }
  }

  /** Agreement survives every operation but one: disconnecting a pair that has more than one connection. */
  lemma LinkedExactly<S, T>(n: Net<S, T>, op: Op<S, T>)
    requires Linked(n) && Allowed(n, op)
    ensures Step(n, op).Some?
    ensures Linked(Step(n, op).value) <==> !(op.Disconnect? && Count(n.signals[op.s], op.t) > 1)
  {
    LinkedDefined(n, op);
    var r := Step(n, op).value;
    BackedAlways(n, op);
    if op.Disconnect? && Count(n.signals[op.s], op.t) > 1 {
      PairAfter(n, op, op.s, op.t);
      CountDests(n.signals[op.s], op.t);
      if Linked(r) {
        LinkedPair(r, op.s, op.t);
      }
    } else {
      forall s, t | s in r.signals && t in Dests(r.signals[s]) ensures Registered(r, s, t) {
        AnnouncedStep(n, op, s, t);
      }
    }
  }

  /** In a linked net no operation follows a pointer to a destroyed object. */
  lemma LinkedDefined<S, T>(n: Net<S, T>, op: Op<S, T>)
    requires Linked(n) && Allowed(n, op)
    ensures Step(n, op).Some?
  {
    forall s | s in n.signals ensures Calls(n, s) {
      forall x | x in n.signals[s] ensures x.dest in n.targets {
        assert x.dest in Dests(n.signals[s]);
      }
    }
    forall t | t in n.targets ensures Called(n, t) {
      assert forall s :: s in n.targets[t] ==> Connected(n, s, t);
    }
  }

  lemma AnnouncedStep<S, T>(n: Net<S, T>, op: Op<S, T>, s: S, t: T)
    requires Linked(n) && Allowed(n, op) && Step(n, op).Some? && s in Step(n, op).value.signals
    requires t in Dests(Step(n, op).value.signals[s])
    requires !(op.Disconnect? && Count(n.signals[op.s], op.t) > 1)
    ensures Registered(Step(n, op).value, s, t)
  {
    var r := Step(n, op).value;
    ConnectedDests(r, s, t);
    PairAfter(n, op, s, t);
    hide Step, Linked, Registered, HeardFrom;
    LinkedPair(n, s, t);
    match op {
      case Disconnect(a, b) => HeardDestsFrom(n, a, b);
      case CopySignal(from, _) => LinkedPair(n, from, t);
      case CopyTarget(source, b) => LinkedPair(n, s, source); LinkedPair(n, s, t); RegisteredAlive(n, s, b);
      case _ =>
    }
  }

  lemma HeardDestsFrom<S, T>(n: Net<S, T>, s: S, t: T)
    requires s in n.signals
    ensures |HeardFrom(n, s, t)| == Count(n.signals[s], t)
  {
    CountDests(n.signals[s], t);
  }

  lemma RegisteredAlive<S, T>(n: Net<S, T>, s: S, t: T)
    ensures Registered(n, s, t) ==> t in n.targets
  {}

  // ---- Runs ----

  predicate AllAllowed<S(==), T(==)>(n: Net<S, T>, ops: seq<Op<S, T>>)
    decreases |ops|
  {
    ops == [] || (
      && Allowed(n, ops[0])
      && (Step(n, ops[0]).Some? ==> AllAllowed(Step(n, ops[0]).value, ops[1..])))
  }

  /** No pair with several connections is disconnected. */
  predicate NoneMultiple<S(==), T(==)>(n: Net<S, T>, ops: seq<Op<S, T>>)
    requires AllAllowed(n, ops)
    decreases |ops|
  {
    ops == [] || (
      && !(ops[0].Disconnect? && Count(n.signals[ops[0].s], ops[0].t) > 1)
      && (Step(n, ops[0]).Some? ==> NoneMultiple(Step(n, ops[0]).value, ops[1..])))
  }

  function Run<S(==), T(==)>(n: Net<S, T>, ops: seq<Op<S, T>>): Option<Net<S, T>>
    requires AllAllowed(n, ops)
    decreases |ops|
  {
    if ops == [] then Some(n) else
    match Step(n, ops[0])
    case None => None
    case Some(r) => Run(r, ops[1..])
  }

  lemma {:induction false} RunLinked<S, T>(n: Net<S, T>, ops: seq<Op<S, T>>)
    requires Linked(n) && AllAllowed(n, ops) && NoneMultiple(n, ops)
    ensures Run(n, ops).Some? && Linked(Run(n, ops).value)
    decreases |ops|
  {
    if ops == [] {
    } else {
      LinkedExactly(n, ops[0]);
      hide Step, Linked;
      RunLinked(Step(n, ops[0]).value, ops[1..]);
    }
  }

  /** Over every run from nothing that never disconnects a multiple connection, no object is used after its
      destruction, and a signal calls a target exactly when the target knows the signal and both are alive. */
  lemma NeverDangling<S, T>(ops: seq<Op<S, T>>, s: S, t: T)
    requires AllAllowed(Net(map[], map[]), ops) && NoneMultiple(Net(map[], map[]), ops)
    ensures var r := Run(Net(map[], map[]), ops);
      r.Some? && (Connected(r.value, s, t) <==> s in r.value.signals && t in r.value.targets && s in r.value.targets[t])
  {
    var empty: Net<S, T> := Net(map[], map[]);
    assert Linked(empty);
    RunLinked(empty, ops);
    LinkedPair(Run(empty, ops).value, s, t);
  }

  /** Destroying a target leaves s pointing at it exactly when s calls it without being registered. */
  lemma DestroyedTargetDangles<S, T>(n: Net<S, T>, s: S, t: T)
    requires t in n.targets && Called(n, t)
    ensures var r := Step(n, DestroyTarget(t)).value;
      t !in r.targets && (Connected(r, s, t) <==> Connected(n, s, t) && !Registered(n, s, t))
  {
    PairAfter(n, DestroyTarget(t), s, t);
  }

  /** A signal that points at a destroyed target cannot even be destroyed. */
  lemma DanglingSignalStuck<S, T>(n: Net<S, T>, s: S, t: T)
    requires s in n.signals && t !in n.targets && Connected(n, s, t)
    ensures Step(n, DestroySignal(s)) == None
  {
    ConnectedDests(n, s, t);
    assert exists x :: x in n.signals[s] && x.dest == t;
  }

  /** Two connections of one pair, one disconnect and the end of the target: the signal dangles. */
  lemma DoubleConnectionDangles<S, T>(s: S, t: T)
    ensures var n: Net<S, T> := Net(map[s := [Connection(t, 0), Connection(t, 1)]], map[t := {s}]);
      var r := DisconnectStep(n, s, t);
      && Linked(n) && Called(r, t)
      && var d := Step(r, DestroyTarget(t)).value;
      s in d.signals && Connected(d, s, t) && t !in d.targets && Step(d, DestroySignal(s)) == None
  {
    var c := [Connection(t, 0), Connection(t, 1)];
    var n: Net<S, T> := Net(map[s := c], map[t := {s}]);
    assert c[0].dest == t && c[1..] == [Connection(t, 1)];
    HeardOne(Connection(t, 1), t);
    assert Heard(c, t) == [0] + Heard(c[1..], t);
    assert c[0] in c && Dests(c) == {t};
    assert Connected(n, s, t) && Registered(n, s, t);
    var r := DisconnectStep(n, s, t);
    assert DropFirst(c, t) == c[1..];
    assert r.signals[s] == c[1..] && r.targets[t] == {};
    assert Connected(r, s, t) && !Registered(r, s, t);
    DestroyedTargetDangles(r, s, t);
    DanglingSignalStuck(Step(r, DestroyTarget(t)).value, s, t);
  }

  /** The copy of a target hears from every signal what the original hears, in the same order. */
  lemma CopyHears<S, T>(n: Net<S, T>, source: T, t: T, s: S)
    requires Linked(n) && source in n.targets && t !in n.targets
    ensures Step(n, CopyTarget(source, t)).Some?
    ensures var r := Step(n, CopyTarget(source, t)).value;
      HeardFrom(r, s, t) == HeardFrom(n, s, source) == HeardFrom(r, s, source)
  {
    LinkedExactly(n, CopyTarget(source, t));
    PairAfter(n, CopyTarget(source, t), s, t);
    PairAfter(n, CopyTarget(source, t), s, source);
    LinkedPair(n, s, source);
    LinkedPair(n, s, t);
  }

  /** disconnect_all on a target silences every signal towards it. */
  lemma ClearedTargetSilent<S, T>(n: Net<S, T>, t: T, s: S)
    requires Linked(n) && t in n.targets
    ensures Step(n, ClearTarget(t)).Some? && HeardFrom(Step(n, ClearTarget(t)).value, s, t) == []
  {
    LinkedExactly(n, ClearTarget(t));
    PairAfter(n, ClearTarget(t), s, t);
    LinkedPair(n, s, t);
  }
}
