/** Late drains: exactly which calls let a consumeOrDrain find the bucket emptied behind its back and return a
    negative amount, and that without such calls the positive amounts alone keep the rate. */
module TokenDrains {
  import opened TokenBucket
  import opened Options

  ghost predicate NonNegative(calls: seq<Call>) {
    forall i :: 0 <= i < |calls| ==> calls[i].amount >= 0.0
  }

  /** A successful exchange takes a negative amount exactly when it is a drain that loaded a zeroTime after its own
      time. */
  lemma NegativeExchange(c: Config, zeroTimeOld: real, call: Call)
    requires ValidConfig(c) && call.amount >= 0.0
    ensures var taken := Taken(call, Tokens(c, zeroTimeOld, call.now));
      taken.Some? && taken.value < 0.0 <==> call.ConsumeOrDrain? && zeroTimeOld > call.now
  {
    TokensSign(c, zeroTimeOld, call.now);
  }

  lemma ProductSign(x: real, r: real)
    requires r > 0.0
    ensures x * r < 0.0 <==> x < 0.0
    ensures x * r > 0.0 <==> x > 0.0
  {
    if x > 0.0 {
      PositiveProduct(x, r);
    } else if x < 0.0 {
      PositiveProduct(0.0 - x, r);
      Distribute(x, 0.0 - x, r);
    }
  }

  lemma TokensAre(c: Config, zeroTime: real, now: real, whole: real)
    requires c.rate > 0.0 && whole == (now - zeroTime) * c.rate
    ensures Tokens(c, zeroTime, now) == if c.burst < whole then c.burst else whole
  {}

  lemma TokensSign(c: Config, zeroTime: real, now: real)
    requires ValidConfig(c)
    ensures Tokens(c, zeroTime, now) < 0.0 <==> now < zeroTime
    ensures now > zeroTime ==> Tokens(c, zeroTime, now) > 0.0
  {
    var span := now - zeroTime;
    ProductSign(span, c.rate);
    TokensAre(c, zeroTime, now, span * c.rate);
    hide Tokens;
  }

  /** The call `rival` can move zeroTime beyond the time of the drain: it comes later, and it either takes something or
      moves a zeroTime that is further back than the burst size. */
  ghost predicate Overtakes(c: Config, rival: Call, drain: Call)
    requires c.rate > 0.0
  {
    && drain.ConsumeOrDrain? && drain.now < rival.now
    && if rival.amount > 0.0 then rival.ConsumeOrDrain? || rival.amount <= c.burst else drain.now < Full(c, rival.now)
  }

  ghost predicate NoOvertaking(c: Config, calls: seq<Call>)
    requires c.rate > 0.0
  {
    forall i, j :: 0 <= i < |calls| && 0 <= j < |calls| ==> !Overtakes(c, calls[j], calls[i])
  }

  // ---- Without overtaking ----

  /** A drain that has passed its check is still ahead of zeroTime, and nothing negative has been returned. */
  ghost predicate Ahead(zeroTime: real, t: Thread) {
    && (t.call.ConsumeOrDrain? && (t.phase.Checked? || t.phase.Loaded?) ==> zeroTime <= t.call.now)
    && (t.call.ConsumeOrDrain? && t.phase.Loaded? ==> t.phase.zeroTimeOld <= t.call.now)
    && (t.phase.Done? ==> t.phase.consumed >= 0.0)
  }

  ghost predicate AllAhead(c: Config, s: State, calls: seq<Call>) {
    |s.threads| == |calls| && forall i :: 0 <= i < |calls| ==>
      s.threads[i].call == calls[i] && Ahead(s.zeroTime, s.threads[i])
  }

  lemma ExchangeStaysBelow(c: Config, z: real, rival: Call, drain: Call)
    requires ValidConfig(c) && rival.amount >= 0.0 && drain.ConsumeOrDrain? && z <= drain.now
    requires Taken(rival, Tokens(c, z, rival.now)).Some? && (rival.ConsumeOrDrain? ==> z <= rival.now)
    requires !Overtakes(c, rival, drain)
    ensures NewZeroTime(c, z, rival.now, Taken(rival, Tokens(c, z, rival.now)).value) <= drain.now
  {
    var tokens := Tokens(c, z, rival.now);
    var taken := Taken(rival, tokens).value;
    TokensSign(c, z, rival.now);
    if rival.now <= drain.now {
      DivideOrdered(0.0, tokens - taken, c.rate);
    } else {
      ExchangeMeans(c, z, rival.now, taken);
      assert taken == 0.0;
    }
  }

  lemma StepStaysAhead(c: Config, s: State, turn: Turn, calls: seq<Call>)
    requires ValidConfig(c) && NonNegative(calls) && NoOvertaking(c, calls) && AllAhead(c, s, calls)
    ensures AllAhead(c, Step(c, s, turn), calls)
  {
    if turn.thread < |s.threads| {
      var j, t := turn.thread, s.threads[turn.thread];
      var r := Step(c, s, turn);
      ThreadStaysAhead(c, s.zeroTime, t, turn.spurious);
      forall i | 0 <= i < |calls| && i != j ensures Ahead(r.zeroTime, r.threads[i]) {
        assert Ahead(s.zeroTime, s.threads[i]);
        if r.zeroTime != s.zeroTime && calls[i].ConsumeOrDrain?
          && (s.threads[i].phase.Checked? || s.threads[i].phase.Loaded?) {
          assert !Overtakes(c, calls[j], calls[i]);
          ExchangeStaysBelow(c, s.zeroTime, t.call, calls[i]);
        }
      }
    }
  }

  lemma ThreadStaysAhead(c: Config, zeroTime: real, t: Thread, spurious: bool)
    requires ValidConfig(c) && t.call.amount >= 0.0 && Ahead(zeroTime, t)
    ensures var (z, phase) := StepThread(c, zeroTime, t, spurious);
      (phase.Done? ==> phase.consumed >= 0.0) && (!phase.Done? ==> z == zeroTime && Ahead(z, Thread(t.call, phase)))
  {
    if t.phase.Loaded? {
      NegativeExchange(c, t.phase.zeroTimeOld, t.call);
    }
  }

  lemma {:induction false} RunStaysAhead(c: Config, s: State, schedule: seq<Turn>, calls: seq<Call>)
    requires ValidConfig(c) && NonNegative(calls) && NoOvertaking(c, calls) && AllAhead(c, s, calls)
    ensures AllAhead(c, Run(c, s, schedule), calls)
    decreases |schedule|
  {
    if schedule == [] {
    } else {
      StepStaysAhead(c, s, schedule[0], calls);
      hide Step, AllAhead, NoOvertaking;
      RunStaysAhead(c, Step(c, s, schedule[0]), schedule[1..], calls);
    }
  }

  lemma {:induction false} GainsAreTotal(threads: seq<Thread>)
    requires forall i :: 0 <= i < |threads| ==> Consumed(threads[i]) >= 0.0
    ensures Gains(threads) == Total(threads)
  {
    if threads == [] {
    } else {
      GainsAreTotal(threads[1..]);
    }
  }

  /** Without overtaking, in every schedule and wherever zeroTime starts, no call returns a negative amount and the
      amounts handed out keep the rate. */
  lemma GainsKeepRate(c: Config, zeroTime: real, calls: seq<Call>, schedule: seq<Turn>, t0: real, t1: real)
    requires ValidConfig(c) && t0 <= t1 && NonNegative(calls) && NoOvertaking(c, calls)
    requires forall i :: 0 <= i < |calls| ==> t0 <= calls[i].now <= t1
    ensures var threads := Run(c, Start(zeroTime, calls), schedule).threads;
      && |threads| == |calls| && (forall i :: 0 <= i < |calls| ==> Consumed(threads[i]) >= 0.0)
      && Gains(threads) <= c.burst + c.rate * (t1 - t0)
  {
    var s := Start(zeroTime, calls);
    assert AllAhead(c, s, calls);
    RunStaysAhead(c, s, schedule, calls);
    GainsAreTotal(Run(c, s, schedule).threads);
    RateIsKept(c, zeroTime, calls, schedule, t0, t1);
  }

  /** In particular drains at the latest time of the window cannot be overtaken. */
  lemma LatestDrainsKeepRate(c: Config, zeroTime: real, calls: seq<Call>, schedule: seq<Turn>, t0: real, t1: real)
    requires ValidConfig(c) && t0 <= t1 && NonNegative(calls)
    requires forall i :: 0 <= i < |calls| ==>
      t0 <= calls[i].now <= t1 && (calls[i].ConsumeOrDrain? ==> calls[i].now == t1)
    ensures Gains(Run(c, Start(zeroTime, calls), schedule).threads) <= c.burst + c.rate * (t1 - t0)
  {
    GainsKeepRate(c, zeroTime, calls, schedule, t0, t1);
  }

  // ---- With overtaking ----

  /** A zeroTime before the drain from which the other call moves it beyond the drain. */
  function Trap(c: Config, rival: Call, drain: Call): real
    requires c.rate > 0.0
  {
    if rival.amount > 0.0 then
      var b := Min(rival.amount, c.burst) / c.rate;
      Min(rival.now - b, drain.now - b / 2.0)
    else drain.now - 1.0
  }

  lemma TrapSprings(c: Config, rival: Call, drain: Call)
    requires ValidConfig(c) && rival.amount >= 0.0 && Overtakes(c, rival, drain)
    ensures Trap(c, rival, drain) < drain.now < Alone(c, Trap(c, rival, drain), rival).0
  {
    var z := Trap(c, rival, drain);
    if rival.amount > 0.0 {
      var b := Min(rival.amount, c.burst);
      PositiveQuotient(b, c.rate);
      assert z < drain.now < rival.now;
      EnoughTokens(c, z, rival.now, b);
      var tokens := Tokens(c, z, rival.now);
      var taken := Taken(rival, tokens).value;
      assert taken >= b;
      ExchangeMeans(c, z, rival.now, taken);
      DivideOrdered(b, taken, c.rate);
    } else {
      TokensSign(c, z, rival.now);
      ExchangeMeans(c, z, rival.now, 0.0);
    }
  }

  lemma PositiveQuotient(b: real, r: real)
    requires b > 0.0 && r > 0.0
    ensures b / r > 0.0
  {}

  lemma EnoughTokens(c: Config, z: real, now: real, b: real)
    requires ValidConfig(c) && z <= now - b / c.rate && b <= c.burst
    ensures b <= Tokens(c, z, now) <= c.burst
  {
    DivideOrdered(b / c.rate, now - z, c.rate);
    DivideProduct(b, c.rate);
  }

  /** In this schedule call i comes out negative. */
  ghost predicate SomeNegative(c: Config, zeroTime: real, calls: seq<Call>, schedule: seq<Turn>, i: nat)
    requires c.rate > 0.0
  {
    var threads := Run(c, Start(zeroTime, calls), schedule).threads;
    i < |threads| && Consumed(threads[i]) < 0.0
  }

  /** Drain i passes its check, call j overtakes it, and drain i comes out negative. */
  lemma OvertakenGoesNegative(c: Config, calls: seq<Call>, i: nat, j: nat)
    requires ValidConfig(c) && NonNegative(calls) && i < |calls| && j < |calls| && Overtakes(c, calls[j], calls[i])
    ensures exists zeroTime, schedule :: SomeNegative(c, zeroTime, calls, schedule, i)
  {
    var z0 := Trap(c, calls[j], calls[i]);
    TrapSprings(c, calls[j], calls[i]);
    var t := Turn(i, false);
    var s0 := Start(z0, calls);
    var s1 := Step(c, s0, t);
    assert s1.zeroTime == z0 && s1.threads[i] == Thread(calls[i], Checked)
      && s1.threads[j] == Thread(calls[j], Entered);
    AloneIsConcurrent(c, s1, j);
    var s2 := Run(c, s1, Thrice(j));
    assert s2.zeroTime > calls[i].now && s2.threads[i] == s1.threads[i];
    var s3 := Step(c, s2, t);
    assert s3.threads[i] == Thread(calls[i], Loaded(s2.zeroTime)) && s3.zeroTime == s2.zeroTime;
    NegativeExchange(c, s2.zeroTime, calls[i]);
    var s4 := Step(c, s3, t);
    assert Consumed(s4.threads[i]) < 0.0 && |s4.threads| == |calls|;
    hide Step, Run, Start, Thrice;
    var again := [t] + ([t] + []);
    RunNothing(c, s4);
    RunStep(c, s3, t, []);
    RunStep(c, s2, t, [t] + []);
    RunAppend(c, s1, Thrice(j), again);
    RunStep(c, s0, t, Thrice(j) + again);
    assert SomeNegative(c, z0, calls, [t] + (Thrice(j) + again), i);
  }

  /** Some schedule makes some call return a negative amount exactly when one of the calls can overtake a drain. */
  lemma NegativeExactly(c: Config, calls: seq<Call>)
    requires ValidConfig(c) && NonNegative(calls)
    ensures (exists zeroTime, schedule, i: nat :: SomeNegative(c, zeroTime, calls, schedule, i)) <==>
      !NoOvertaking(c, calls)
  {
    if NoOvertaking(c, calls) {
      forall zeroTime, schedule, i: nat ensures !SomeNegative(c, zeroTime, calls, schedule, i) {
        var s := Start(zeroTime, calls);
        assert AllAhead(c, s, calls);
        RunStaysAhead(c, s, schedule, calls);
      }
    } else {
      var i, j :| 0 <= i < |calls| && 0 <= j < |calls| && Overtakes(c, calls[j], calls[i]);
      OvertakenGoesNegative(c, calls, i, j);
      var zeroTime, schedule :| SomeNegative(c, zeroTime, calls, schedule, i);
    }
  }
}
