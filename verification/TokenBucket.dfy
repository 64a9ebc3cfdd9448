/** BasicDynamicTokenBucket over the real numbers: the atomic loads and compare-exchanges of any number of
    concurrent calls, and the bucket as one caller sees it. */
module TokenBucket {

  import opened Options

  /** rate: tokens per second; burst: the most tokens the bucket holds. */
  datatype Config = Config(rate: real, burst: real)

  ghost predicate ValidConfig(c: Config) { c.rate > 0.0 && c.burst > 0.0 }

  function Min(a: real, b: real): real { if b < a then b else a }

  function Max(a: real, b: real): real { if a < b then b else a }

  // ---- One exchange of zeroTime ----

  datatype Call = Consume(amount: real, now: real) | ConsumeOrDrain(amount: real, now: real)

  function Tokens(c: Config, zeroTime: real, now: real): real
    requires c.rate > 0.0
  {
    Min((now - zeroTime) * c.rate, c.burst)
  }

  /** How many of the tokens a call takes; a consume that does not find enough gives up. */
  function Taken(call: Call, tokens: real): Option<real> {
    match call
    case Consume(amount, _) => if tokens < amount then None else Some(amount)
    case ConsumeOrDrain(amount, _) => if tokens < amount then Some(tokens) else Some(amount)
  }

  function NewZeroTime(c: Config, zeroTime: real, now: real, taken: real): real
    requires c.rate > 0.0
  {
    now - (Tokens(c, zeroTime, now) - taken) / c.rate
  }

  /** The floor below which zeroTime makes no difference to a call at time now. */
  function Full(c: Config, now: real): real
    requires c.rate > 0.0
  {
    now - c.burst / c.rate
  }

  lemma DivideProduct(x: real, r: real)
    requires r > 0.0
    ensures (x * r) / r == x && (x / r) * r == x
  {
  }

  lemma DivideOrdered(x: real, y: real, r: real)
    requires r > 0.0 && x <= y
    ensures x / r <= y / r && x * r <= y * r
  {
  }

  lemma DivideSplits(x: real, y: real, r: real)
    requires r > 0.0
    ensures (x - y) / r == x / r - y / r && (x + y) / r == x / r + y / r
  {
  }

  lemma Distribute(x: real, y: real, r: real)
    ensures (x + y) * r == x * r + y * r
  {
  }

  lemma NonNegativeProduct(x: real, y: real)
    requires x >= 0.0 && y >= 0.0
    ensures x * y >= 0.0
  {
  }

  lemma BoundFromQuotient(total: real, burst: real, span: real, r: real)
    requires r > 0.0 && total / r <= span + burst / r
    ensures total <= burst + r * span
  {
    DivideOrdered(total / r, span + burst / r, r);
    DivideProduct(total, r);
    DivideProduct(burst, r);
    Distribute(span, burst / r, r);
  }

  /** Taking t tokens at time now moves zeroTime to max(zeroTime, now - burst/rate) + t/rate. */
  lemma ExchangeMeans(c: Config, zeroTime: real, now: real, t: real)
    requires ValidConfig(c)
    ensures NewZeroTime(c, zeroTime, now, t) == Max(zeroTime, Full(c, now)) + t / c.rate
  {
    var whole, tokens := (now - zeroTime) * c.rate, Tokens(c, zeroTime, now);
    assert tokens == if c.burst < whole then c.burst else whole;
    assert NewZeroTime(c, zeroTime, now, t) == now - (tokens - t) / c.rate;
    assert Full(c, now) == now - c.burst / c.rate;
    hide Tokens, NewZeroTime, Full;
    WholeTime(now, zeroTime, whole, c.burst, c.rate);
    DivideSplits(tokens, t, c.rate);
  }

  lemma WholeTime(now: real, zeroTime: real, whole: real, burst: real, rate: real)
    requires rate > 0.0 && whole == (now - zeroTime) * rate
    ensures whole / rate == now - zeroTime
    ensures whole <= burst ==> now - zeroTime <= burst / rate
    ensures burst <= whole ==> burst / rate <= now - zeroTime
  {
    DivideProduct(now - zeroTime, rate);
    if whole <= burst { DivideOrdered(whole, burst, rate); }
    if burst <= whole { DivideOrdered(burst, whole, rate); }
  }

  // ---- Concurrent calls ----

  /** How far a call has got: before its check, before its load, in its compare-exchange loop, or done. */
  datatype Phase = Entered | Checked | Loaded(zeroTimeOld: real) | Done(consumed: real)

  datatype Thread = Thread(call: Call, phase: Phase)

  datatype State = State(zeroTime: real, threads: seq<Thread>)

  /** One turn: the thread that takes its next atomic step, and whether its compare-exchange fails spuriously. */
  datatype Turn = Turn(thread: nat, spurious: bool)

  function StepThread(c: Config, zeroTime: real, t: Thread, spurious: bool): (real, Phase)
    requires c.rate > 0.0
  {
    match t.phase
    case Entered => (zeroTime, if t.call.now <= zeroTime then Done(0.0) else Checked)
    case Checked => (zeroTime, Loaded(zeroTime))
    case Loaded(zeroTimeOld) =>
      (match Taken(t.call, Tokens(c, zeroTimeOld, t.call.now))
       case None => (zeroTime, Done(0.0))
       case Some(taken) =>
         if zeroTime == zeroTimeOld && !spurious
         then (NewZeroTime(c, zeroTimeOld, t.call.now, taken), Done(taken))
         else (zeroTime, Loaded(zeroTime)))
    case Done(_) => (zeroTime, t.phase)
  }

  function Step(c: Config, s: State, turn: Turn): State
    requires c.rate > 0.0
  {
    if turn.thread >= |s.threads| then s
    else
      var t := s.threads[turn.thread];
      var next := StepThread(c, s.zeroTime, t, turn.spurious);
      State(next.0, s.threads[turn.thread := Thread(t.call, next.1)])
  }

  function Run(c: Config, s: State, schedule: seq<Turn>): State
    requires c.rate > 0.0
    decreases |schedule|
  {
    if schedule == [] then s else Run(c, Step(c, s, schedule[0]), schedule[1..])
  }

  function Consumed(t: Thread): real { if t.phase.Done? then t.phase.consumed else 0.0 }

  /** Everything handed out so far. A late drain may count negative here: it gives tokens back. */
  function Total(threads: seq<Thread>): real {
    if threads == [] then 0.0 else Consumed(threads[0]) + Total(threads[1..])
  }

  lemma {:induction false} TotalUpdate(threads: seq<Thread>, i: nat, t: Thread)
    requires i < |threads|
    ensures Total(threads[i := t]) == Total(threads) - Consumed(threads[i]) + Consumed(t)
  {
    if i > 0 {
      assert threads[i := t][1..] == threads[1..][i - 1 := t];
      TotalUpdate(threads[1..], i - 1, t);
    } else {
      assert threads[0 := t][1..] == threads[1..];
    }
  }

  ghost predicate InWindow(threads: seq<Thread>, t0: real, t1: real) {
    forall i :: 0 <= i < |threads| ==> t0 <= threads[i].call.now <= t1
  }

  /** Before the first successful exchange nothing is handed out; afterwards zeroTime has advanced, from the
      later of its start z0 and the last moment that fills the bucket by t0, by at least what was handed out. */
  ghost predicate Balanced(c: Config, s: State, z0: real, t0: real, t1: real)
    requires c.rate > 0.0
  {
    || (s.zeroTime == z0 && Total(s.threads) == 0.0)
    || (s.zeroTime <= t1 && Max(z0, Full(c, t0)) + Total(s.threads) / c.rate <= s.zeroTime)
  }

  lemma ExchangeKeepsBalance(c: Config, z: real, call: Call, z0: real, t0: real, t1: real, total: real)
    requires ValidConfig(c) && t0 <= call.now <= t1 && Taken(call, Tokens(c, z, call.now)).Some?
    requires (z == z0 && total == 0.0) || (z <= t1 && Max(z0, Full(c, t0)) + total / c.rate <= z)
    ensures var taken := Taken(call, Tokens(c, z, call.now)).value;
      var z' := NewZeroTime(c, z, call.now, taken);
      z' <= t1 && Max(z0, Full(c, t0)) + (total + taken) / c.rate <= z'
  {
    var tokens := Tokens(c, z, call.now);
    var taken := Taken(call, tokens).value;
    ExchangeMeans(c, z, call.now, taken);
    DivideSplits(total, taken, c.rate);
    DivideOrdered(0.0, tokens - taken, c.rate);
  }

  lemma StepKeepsBalance(c: Config, s: State, turn: Turn, z0: real, t0: real, t1: real)
    requires ValidConfig(c) && InWindow(s.threads, t0, t1) && Balanced(c, s, z0, t0, t1)
    ensures InWindow(Step(c, s, turn).threads, t0, t1) && Balanced(c, Step(c, s, turn), z0, t0, t1)
  {
    if turn.thread < |s.threads| {
      var t := s.threads[turn.thread];
      var next := StepThread(c, s.zeroTime, t, turn.spurious);
      TotalUpdate(s.threads, turn.thread, Thread(t.call, next.1));
      if t.phase.Loaded? && next.1.Done? && Taken(t.call, Tokens(c, t.phase.zeroTimeOld, t.call.now)).Some? {
        ExchangeKeepsBalance(c, s.zeroTime, t.call, z0, t0, t1, Total(s.threads));
      }
    }
  }

  lemma {:induction false} RunKeepsBalance(c: Config, s: State, schedule: seq<Turn>, z0: real, t0: real, t1: real)
    requires ValidConfig(c) && InWindow(s.threads, t0, t1) && Balanced(c, s, z0, t0, t1)
    ensures Balanced(c, Run(c, s, schedule), z0, t0, t1)
    decreases |schedule|
  {
    if schedule == [] {
    } else {
      StepKeepsBalance(c, s, schedule[0], z0, t0, t1);
      RunKeepsBalance(c, Step(c, s, schedule[0]), schedule[1..], z0, t0, t1);
    }
  }

  function Start(zeroTime: real, calls: seq<Call>): State {
    State(zeroTime, seq(|calls|, i requires 0 <= i < |calls| => Thread(calls[i], Entered)))
  }

  lemma {:induction false} NothingConsumed(threads: seq<Thread>)
    requires forall i :: 0 <= i < |threads| ==> threads[i].phase == Entered
    ensures Total(threads) == 0.0
  {
    if threads == [] {
    } else {
      NothingConsumed(threads[1..]);
    }
  }

  lemma WindowBound(c: Config, total: real, z0: real, z: real, t0: real, t1: real)
    requires ValidConfig(c) && z <= t1 && Max(z0, Full(c, t0)) + total / c.rate <= z
    ensures total <= c.burst + c.rate * (t1 - t0)
  {
    BoundFromQuotient(total, c.burst, t1 - t0, c.rate);
  }

  /** Whatever the interleaving of the calls' loads and exchanges, and wherever zeroTime starts, calls made at
      times in [t0, t1] are handed at most burst + rate * (t1 - t0) tokens in sum. */
  lemma RateIsKept(c: Config, zeroTime: real, calls: seq<Call>, schedule: seq<Turn>, t0: real, t1: real)
    requires ValidConfig(c) && t0 <= t1
    requires forall i :: 0 <= i < |calls| ==> t0 <= calls[i].now <= t1
    ensures Total(Run(c, Start(zeroTime, calls), schedule).threads) <= c.burst + c.rate * (t1 - t0)
  {
    var s := Start(zeroTime, calls);
    NothingConsumed(s.threads);
    RunKeepsBalance(c, s, schedule, zeroTime, t0, t1);
    var total := Total(Run(c, s, schedule).threads);
    NonNegativeProduct(c.rate, t1 - t0);
    if total != 0.0 {
      WindowBound(c, total, zeroTime, Run(c, s, schedule).zeroTime, t0, t1);
    }
  }

  function Gains(threads: seq<Thread>): real {
    if threads == [] then 0.0 else Max(0.0, Consumed(threads[0])) + Gains(threads[1..])
  }

  /** The sum has to count what late drains give back. Here a drain passes its check at time 0, two others
      then empty the bucket at times 0 and 1, the first returns -1, and a fourth takes that token: three
      tokens are handed out between 0 and 1 although burst + rate * (1 - 0) is two. */
  lemma LateDrainGivesBack()
    ensures exists calls: seq<Call>, schedule: seq<Turn> ::
      && (forall i :: 0 <= i < |calls| ==> 0.0 <= calls[i].now <= 1.0)
      && Gains(Run(UNIT, Start(-1.0, calls), schedule).threads) > UNIT.burst + UNIT.rate * (1.0 - 0.0)
  {
    hide Step, Run;
    var calls := [EARLY, EARLY, LATE, LATE];
    var s0 := Start(-1.0, calls);
    var s4 := LateDrainState(0.0, Checked, Done(1.0), Entered, Entered);
    var s7 := LateDrainState(1.0, Checked, Done(1.0), Done(1.0), Entered);
    var s9 := LateDrainState(0.0, Done(-1.0), Done(1.0), Done(1.0), Entered);
    var s12 := LateDrainState(1.0, Done(-1.0), Done(1.0), Done(1.0), Done(1.0));
    LateDrainOpens(s0);
    var s1 := Step(UNIT, s0, Turn(0, false));
    OneToken(s1, 1, 0.0);
    assert s1.threads[1 := Thread(EARLY, Done(1.0))] == s4.threads;
    OneToken(s4, 2, 1.0);
    assert s4.threads[2 := Thread(LATE, Done(1.0))] == s7.threads;
    LateDrainReturns(s7);
    OneToken(s9, 3, 1.0);
    assert s9.threads[3 := Thread(LATE, Done(1.0))] == s12.threads;
    var again := [Turn(0, false), Turn(0, false)];
    RunAppend(UNIT, s7, again, Thrice(3));
    RunAppend(UNIT, s4, Thrice(2), again + Thrice(3));
    RunAppend(UNIT, s1, Thrice(1), Thrice(2) + (again + Thrice(3)));
    RunStep(UNIT, s0, Turn(0, false), Thrice(1) + (Thrice(2) + (again + Thrice(3))));
    assert Run(UNIT, s0, [Turn(0, false)] + (Thrice(1) + (Thrice(2) + (again + Thrice(3))))) == s12;
    GainsOfFour(s12.threads);
  }

  const UNIT: Config := Config(1.0, 1.0)
  const EARLY: Call := ConsumeOrDrain(1.0, 0.0)
  const LATE: Call := ConsumeOrDrain(1.0, 1.0)

  function LateDrainState(z: real, a: Phase, b: Phase, d: Phase, e: Phase): State {
    State(z, [Thread(EARLY, a), Thread(EARLY, b), Thread(LATE, d), Thread(LATE, e)])
  }

  lemma LateDrainOpens(s: State)
    requires s == Start(-1.0, [EARLY, EARLY, LATE, LATE])
    ensures Step(UNIT, s, Turn(0, false)) == LateDrainState(-1.0, Checked, Entered, Entered, Entered)
  {
    assert s == LateDrainState(-1.0, Entered, Entered, Entered, Entered);
  }

  lemma LateDrainReturns(s: State)
    requires s == LateDrainState(1.0, Checked, Done(1.0), Done(1.0), Entered)
    ensures Run(UNIT, s, [Turn(0, false), Turn(0, false)])
      == LateDrainState(0.0, Done(-1.0), Done(1.0), Done(1.0), Entered)
  {
    hide Step, Run;
    var t := Turn(0, false);
    var s1 := LateDrainState(1.0, Loaded(1.0), Done(1.0), Done(1.0), Entered);
    var s2 := LateDrainState(0.0, Done(-1.0), Done(1.0), Done(1.0), Entered);
    LateDrainLoads(s);
    LateDrainExchanges(s1);
    RunNothing(UNIT, s2);
    assert [t, t] == [t] + ([t] + []);
    RunStep(UNIT, s, t, [t] + []);
    RunStep(UNIT, s1, t, []);
  }

  lemma LateDrainLoads(s: State)
    requires s == LateDrainState(1.0, Checked, Done(1.0), Done(1.0), Entered)
    ensures Step(UNIT, s, Turn(0, false)) == LateDrainState(1.0, Loaded(1.0), Done(1.0), Done(1.0), Entered)
  {
  }

  lemma LateDrainExchanges(s: State)
    requires s == LateDrainState(1.0, Loaded(1.0), Done(1.0), Done(1.0), Entered)
    ensures Step(UNIT, s, Turn(0, false)) == LateDrainState(0.0, Done(-1.0), Done(1.0), Done(1.0), Entered)
  {
    LateExchange();
    hide StepThread;
    assert s.threads[0] == Thread(EARLY, Loaded(1.0));
  }

  lemma LateExchange()
    ensures StepThread(UNIT, 1.0, Thread(EARLY, Loaded(1.0)), false) == (0.0, Done(-1.0))
  {
    hide NewZeroTime, Tokens, Taken;
    LateZeroTime();
  }

  lemma LateZeroTime()
    ensures Tokens(UNIT, 1.0, 0.0) == -1.0 && Taken(EARLY, -1.0) == Some(-1.0)
    ensures NewZeroTime(UNIT, 1.0, 0.0, -1.0) == 0.0
  {
    assert Tokens(UNIT, 1.0, 0.0) == -1.0;
    assert 0.0 - (-1.0 - (-1.0)) / 1.0 == 0.0;
  }

  lemma RunNothing(c: Config, s: State)
    requires c.rate > 0.0
    ensures Run(c, s, []) == s
  {
  }

  /** A whole drain by thread i, one second after the bucket was last empty. */
  lemma OneToken(s: State, i: nat, now: real)
    requires i < |s.threads| && s.threads[i] == Thread(ConsumeOrDrain(1.0, now), Entered) && s.zeroTime == now - 1.0
    ensures Run(UNIT, s, Thrice(i)) == State(now, s.threads[i := Thread(ConsumeOrDrain(1.0, now), Done(1.0))])
  {
    AloneIsConcurrent(UNIT, s, i);
  }

  function Thrice(i: nat): seq<Turn> { [Turn(i, false), Turn(i, false), Turn(i, false)] }

  lemma RunStep(c: Config, s: State, t: Turn, rest: seq<Turn>)
    requires c.rate > 0.0
    ensures Run(c, s, [t] + rest) == Run(c, Step(c, s, t), rest)
  {
    var schedule := [t] + rest;
    assert schedule[0] == t && schedule[1..] == rest;
  }

  lemma GainsOfFour(ts: seq<Thread>)
    requires |ts| == 4
    ensures Gains(ts)
      == Max(0.0, Consumed(ts[0])) + Max(0.0, Consumed(ts[1])) + Max(0.0, Consumed(ts[2])) + Max(0.0, Consumed(ts[3]))
  {
    assert ts[1..][1..] == ts[2..] && ts[2..][1..] == ts[3..] && ts[3..][1..] == [];
    assert Gains(ts[3..]) == Max(0.0, Consumed(ts[3]));
    assert Gains(ts[2..]) == Max(0.0, Consumed(ts[2])) + Gains(ts[3..]);
    assert Gains(ts[1..]) == Max(0.0, Consumed(ts[1])) + Gains(ts[2..]);
  }

  lemma {:induction false} RunAppend(c: Config, s: State, x: seq<Turn>, y: seq<Turn>)
    requires c.rate > 0.0
    ensures Run(c, s, x + y) == Run(c, Run(c, s, x), y)
    decreases |x|
  {
    if x == [] {
      assert x + y == y;
    } else {
      assert (x + y)[1..] == x[1..] + y;
      RunAppend(c, Step(c, s, x[0]), x[1..], y);
    }
  }

  // ---- One caller at a time ----

  /** What a call does when nothing interferes: the new zeroTime and the tokens it got, if it did not give up. */
  function Alone(c: Config, zeroTime: real, call: Call): (real, Option<real>)
    requires c.rate > 0.0
  {
    if call.now <= zeroTime then (zeroTime, if call.Consume? then None else Some(0.0))
    else
      match Taken(call, Tokens(c, zeroTime, call.now))
      case None => (zeroTime, None)
      case Some(t) => (NewZeroTime(c, zeroTime, call.now, t), Some(t))
  }

  /** Three uninterrupted steps of a concurrent call do exactly that, wherever the call appears. */
  lemma AloneIsConcurrent(c: Config, s: State, i: nat)
    requires c.rate > 0.0 && i < |s.threads| && s.threads[i].phase == Entered
    ensures var r := Run(c, s, Thrice(i));
      var (z, got) := Alone(c, s.zeroTime, s.threads[i].call);
      r == State(z, s.threads[i := Thread(s.threads[i].call, Done(if got.Some? then got.value else 0.0))])
  {
    var t := Turn(i, false);
    var s1 := Step(c, s, t);
    var s2 := Step(c, s1, t);
    var s3 := Step(c, s2, t);
    assert Thrice(i) == [t] + ([t] + ([t] + []));
    RunStep(c, s, t, [t] + ([t] + []));
    RunStep(c, s1, t, [t] + []);
    RunStep(c, s2, t, []);
  }

  function Reserved(c: Config, zeroTime: real, now: real, amount: real): real
    requires c.rate > 0.0
  {
    Max(zeroTime, Full(c, now)) + amount / c.rate
  }

  lemma PositiveProduct(x: real, y: real)
    requires x > 0.0 && y > 0.0
    ensures x * y > 0.0
  {
  }

  /** One drain on the way to reserving `left` more tokens. */
  lemma BorrowRound(c: Config, z: real, now: real, left: real)
    requires ValidConfig(c) && left > 0.0
    ensures var (z', got) := Alone(c, z, ConsumeOrDrain(left, now));
      && got.Some?
      && (now <= z ==> z' + left / c.rate == Reserved(c, z, now, left))
      && (now > z ==>
            && 0.0 < got.value <= left && z' <= now && (got.value < left ==> z' == now)
            && z' + (left - got.value) / c.rate == Reserved(c, z, now, left))
  {
    DivideOrdered(0.0, c.burst, c.rate);
    if now > z {
      PositiveProduct(now - z, c.rate);
      var tokens := Tokens(c, z, now);
      var got := Alone(c, z, ConsumeOrDrain(left, now)).1.value;
      ExchangeMeans(c, z, now, got);
      DivideSplits(left, got, c.rate);
      DivideOrdered(0.0, tokens - got, c.rate);
    }
  }

  // ---- Successive reservations ----

  datatype Reservation = Reservation(now: real, amount: real)

  /** zeroTime after the first n reservations, made one after the other. */
  function ZeroAfter(c: Config, z0: real, rs: seq<Reservation>, n: nat): real
    requires c.rate > 0.0 && n <= |rs|
  {
    if n == 0 then z0 else Reserved(c, ZeroAfter(c, z0, rs, n - 1), rs[n - 1].now, rs[n - 1].amount)
  }

  /** When reservation i may be used: its own time plus the wait it was told. */
  function ReadyTime(c: Config, z0: real, rs: seq<Reservation>, i: nat): real
    requires c.rate > 0.0 && i < |rs|
  {
    rs[i].now + Max(0.0, ZeroAfter(c, z0, rs, i + 1) - rs[i].now)
  }

  function Amounts(rs: seq<Reservation>, i: nat, j: nat): real
    requires i <= j <= |rs|
  {
    if i == j then 0.0 else Amounts(rs, i, j - 1) + rs[j - 1].amount
  }

  /** Callers come with times that do not go back and positive amounts. */
  ghost predicate InOrder(c: Config, rs: seq<Reservation>) {
    && (forall i :: 0 <= i < |rs| ==> 0.0 < rs[i].amount <= c.burst)
    && (forall i, j :: 0 <= i <= j < |rs| ==> rs[i].now <= rs[j].now)
  }

  lemma {:induction false} ZeroAdvances(c: Config, z0: real, rs: seq<Reservation>, i: nat, j: nat)
    requires ValidConfig(c) && InOrder(c, rs) && i <= j <= |rs|
    ensures ZeroAfter(c, z0, rs, i) + Amounts(rs, i, j) / c.rate <= ZeroAfter(c, z0, rs, j)
    decreases j - i
  {
    if i == j {
    } else {
      ZeroAdvances(c, z0, rs, i, j - 1);
      DivideSplits(Amounts(rs, i, j - 1), rs[j - 1].amount, c.rate);
    }
  }

  lemma {:induction false} AmountsPositive(c: Config, rs: seq<Reservation>, i: nat, j: nat)
    requires InOrder(c, rs) && i <= j <= |rs|
    ensures Amounts(rs, i, j) >= 0.0
    decreases j - i
  {
    if i == j {
    } else {
      AmountsPositive(c, rs, i, j - 1);
    }
  }

  lemma {:induction false} AmountsSplit(rs: seq<Reservation>, i: nat, j: nat)
    requires i < j <= |rs|
    ensures Amounts(rs, i, j) == rs[i].amount + Amounts(rs, i + 1, j)
    decreases j - i
  {
    if i + 1 < j {
      AmountsSplit(rs, i, j - 1);
    }
  }

  /** Reservations become usable in the order they were made. */
  lemma ReadyInOrder(c: Config, z0: real, rs: seq<Reservation>, i: nat, j: nat)
    requires ValidConfig(c) && InOrder(c, rs) && i <= j < |rs|
    ensures ReadyTime(c, z0, rs, i) <= ReadyTime(c, z0, rs, j)
  {
    ZeroAdvances(c, z0, rs, i + 1, j + 1);
    AmountsPositive(c, rs, i + 1, j + 1);
    DivideOrdered(0.0, Amounts(rs, i + 1, j + 1), c.rate);
  }

  /** And the tokens that become usable between two of them never exceed burst + rate * the time between. */
  lemma ReadyWithinRate(c: Config, z0: real, rs: seq<Reservation>, i: nat, j: nat)
    requires ValidConfig(c) && InOrder(c, rs) && i <= j < |rs|
    ensures Amounts(rs, i, j + 1) <= c.burst + c.rate * (ReadyTime(c, z0, rs, j) - ReadyTime(c, z0, rs, i))
  {
    hide Reserved, Max;
    var a := Amounts(rs, i + 1, j + 1);
    AmountsSplit(rs, i, j + 1);
    ZeroAdvances(c, z0, rs, i + 1, j + 1);
    ReadyBound(c, rs[i].now, rs[j].now, rs[i].amount, a, ZeroAfter(c, z0, rs, i), ZeroAfter(c, z0, rs, i + 1),
               ZeroAfter(c, z0, rs, j + 1),
               ReadyTime(c, z0, rs, i), ReadyTime(c, z0, rs, j));
  }

  lemma ReadyBound(c: Config, now: real, later: real, first: real, a: real, z: real, zi: real, zj: real, from: real,
                   to: real)
    requires ValidConfig(c) && first <= c.burst && now <= later
    requires zi == Reserved(c, z, now, first) && zi + a / c.rate <= zj
    requires from == now + Max(0.0, zi - now) && to == later + Max(0.0, zj - later)
    ensures first + a <= c.burst + c.rate * (to - from)
  {
    assert to >= zj && to >= now && (if zi >= now then from == zi else from == now);
    assert zi >= now - c.burst / c.rate + first / c.rate;
    hide *;
    var span, most := to - from, c.rate * (to - from);
    if zi >= now {
      var q := a / c.rate;
      assert q <= span;
      WithinSpan(a, span, c.rate);
      assert a <= most;
    } else {
      DivideSplits(first, a, c.rate);
      BoundFromQuotient(first + a, c.burst, span, c.rate);
      assert first + a <= c.burst + most;
    }
  }

  lemma WithinSpan(a: real, span: real, r: real)
    requires r > 0.0 && a / r <= span
    ensures a <= r * span
  {
    DivideOrdered(a / r, span, r);
    DivideProduct(a, r);
  }

  class Bucket {
    const config: Config
    var zeroTime: real

    constructor (config: Config, zeroTime: real)
      ensures this.config == config && this.zeroTime == zeroTime
    {
      this.config := config;
      this.zeroTime := zeroTime;
    }

    method ConsumeImpl(call: Call) returns (r: Option<real>)
      requires ValidConfig(config) && call.now > zeroTime
      modifies this
      ensures (zeroTime, r) == old(Alone(config, zeroTime, call))
    {
      var zeroTimeOld := zeroTime;
      var tokens := Min((call.now - zeroTimeOld) * config.rate, config.burst);
      match call {
        case Consume(toConsume, now) =>
          if tokens < toConsume {
            return None;
          }
          r := Some(toConsume);
          tokens := tokens - toConsume;
        case ConsumeOrDrain(toConsume, now) =>
          if tokens < toConsume {
            r := Some(tokens);
            tokens := 0.0;
          } else {
            r := Some(toConsume);
            tokens := tokens - toConsume;
          }
      }
      assert tokens == Tokens(config, zeroTime, call.now) - r.value;
      zeroTime := call.now - tokens / config.rate;
    }

    /** A positive amount is granted exactly when that many tokens are available. */
    method Consume(toConsume: real, now: real) returns (ok: bool)
      requires ValidConfig(config)
      modifies this
      ensures zeroTime == old(Alone(config, zeroTime, Call.Consume(toConsume, now))).0
      ensures ok == old(Alone(config, zeroTime, Call.Consume(toConsume, now))).1.Some?
      ensures toConsume > 0.0 ==> (ok <==> toConsume <= old(Available(now)))
    {
      AvailableHere(now);
      if now <= zeroTime {
        return false;
      }
      var r := ConsumeImpl(Call.Consume(toConsume, now));
      ok := r.Some?;
    }

    method ConsumeOrDrain(toConsume: real, now: real) returns (consumed: real)
      requires ValidConfig(config)
      modifies this
      ensures (zeroTime, Some(consumed)) == old(Alone(config, zeroTime, Call.ConsumeOrDrain(toConsume, now)))
      ensures toConsume > 0.0 ==> consumed == old(Min(toConsume, Available(now)))
    {
      AvailableHere(now);
      if now <= zeroTime {
        return 0.0;
      }
      var r := ConsumeImpl(Call.ConsumeOrDrain(toConsume, now));
      consumed := r.value;
    }

    method ReturnTokensImpl(tokenCount: real) returns (zeroTimeNew: real)
      requires ValidConfig(config)
      modifies this
      ensures zeroTime == zeroTimeNew == old(zeroTime) - tokenCount / config.rate
    {
      zeroTimeNew := zeroTime - tokenCount / config.rate;
      zeroTime := zeroTimeNew;
    }

    function Available(now: real): (r: real)
      requires ValidConfig(config)
      reads this
    {
      if now <= zeroTime then 0.0 else Min((now - zeroTime) * config.rate, config.burst)
    }

    lemma AvailableHere(now: real)
      requires ValidConfig(config)
      ensures 0.0 <= Available(now) <= config.burst
      ensures now > zeroTime ==> Available(now) == Tokens(config, zeroTime, now) > 0.0
    {
      if now > zeroTime {
        PositiveProduct(now - zeroTime, config.rate);
      }
    }

    /** Always grants 0 < toConsume <= burst, in at most two rounds, by moving zeroTime to
        max(zeroTime, now - burst/rate) + toConsume/rate; the caller waits until then. */
    method ConsumeWithBorrowNonBlocking(toConsume: real, now: real) returns (wait: Option<real>, ghost rounds: nat)
      requires ValidConfig(config)
      modifies this
      ensures wait.None? <==> config.burst < toConsume
      ensures toConsume <= 0.0 || config.burst < toConsume ==> zeroTime == old(zeroTime)
      ensures toConsume <= 0.0 ==> wait == Some(0.0)
      ensures 0.0 < toConsume <= config.burst ==>
        && zeroTime == old(Reserved(config, zeroTime, now, toConsume))
        && wait == Some(Max(0.0, zeroTime - now))
      ensures rounds <= 2
    {
      rounds := 0;
      if config.burst < toConsume {
        return None, rounds;
      }
      var left := toConsume;
      ghost var z0 := zeroTime;
      while left > 0.0
        invariant rounds <= 1
        invariant rounds == 0 ==> left == toConsume && zeroTime == z0
        invariant rounds == 1 ==> toConsume > 0.0 && left >= 0.0 && zeroTime <= now && (left > 0.0 ==> zeroTime == now)
        invariant rounds == 1 ==> zeroTime + left / config.rate == Reserved(config, z0, now, toConsume)
        decreases 2 - rounds
      {
        BorrowRound(config, zeroTime, now, left);
        AvailableHere(now);
        rounds := rounds + 1;
        var consumed := ConsumeOrDrain(left, now);
        if consumed > 0.0 {
          left := left - consumed;
        } else {
          var zeroTimeNew := ReturnTokensImpl(-left);
          return Some(Max(0.0, zeroTimeNew - now)), rounds;
        }
      }
      return Some(0.0), rounds;
    }
  }
}
