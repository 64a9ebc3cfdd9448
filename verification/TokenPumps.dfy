/** How much the positive amounts alone can come to: which calls, made any number of times, keep burst + rate * time,
    and that the others exceed every bound. A late drain winds zeroTime back; what matters is whether another call can
    then take tokens again. */
module TokenPumps {
  import opened TokenBucket
  import opened TokenDrains
  import opened Options

  /** The call `rival` can take tokens after the drain has set zeroTime back to its own time. */
  ghost predicate Pumps(c: Config, rival: Call, drain: Call)
    requires c.rate > 0.0
  {
    && drain.ConsumeOrDrain? && drain.now < rival.now && rival.amount > 0.0
    && (rival.ConsumeOrDrain? || rival.amount <= Tokens(c, drain.now, rival.now))
  }

  ghost predicate NoPumping(c: Config, calls: seq<Call>)
    requires c.rate > 0.0
  {
    forall i, j :: 0 <= i < |calls| && 0 <= j < |calls| ==> !Pumps(c, calls[j], calls[i])
  }

  /** There are fewer tokens from a later zeroTime. */
  lemma TokensFall(c: Config, y: real, z: real, now: real)
    requires ValidConfig(c) && y <= z
    ensures Tokens(c, z, now) <= Tokens(c, y, now)
  {
    DivideOrdered(now - z, now - y, c.rate);
  }

  lemma {:induction false} GainsUpdate(threads: seq<Thread>, i: nat, t: Thread)
    requires i < |threads|
    ensures Gains(threads[i := t]) == Gains(threads) - Max(0.0, Consumed(threads[i])) + Max(0.0, Consumed(t))
  {
    if i == 0 {
      assert threads[0 := t][1..] == threads[1..];
    } else {
      assert threads[i := t][1..] == threads[1..][i - 1 := t];
      GainsUpdate(threads[1..], i - 1, t);
    }
  }

  // ---- Without pumping ----

  /** Once zeroTime is not before the time of some drain, a call that takes something pumps. */
  lemma TakingPumps(c: Config, z: real, call: Call, drain: Call)
    requires ValidConfig(c) && call.amount >= 0.0 && drain.ConsumeOrDrain? && drain.now <= z
    requires var taken := Taken(call, Tokens(c, z, call.now)); taken.Some? && taken.value > 0.0
    ensures Pumps(c, call, drain)
  {
    TokensSign(c, z, call.now);
    TokensFall(c, drain.now, z, call.now);
    assert call.now == z ==> (call.now - z) * c.rate == 0.0;
  }

  /** zeroTime is not before the time of some drain among the calls. */
  ghost predicate PastDrain(s: State, calls: seq<Call>) {
    exists i :: 0 <= i < |calls| && calls[i].ConsumeOrDrain? && calls[i].now <= s.zeroTime
  }

  ghost predicate OfCalls(s: State, calls: seq<Call>) {
    |s.threads| == |calls| && forall i :: 0 <= i < |calls| ==> s.threads[i].call == calls[i]
  }

  ghost predicate NoneNegative(s: State) {
    forall i :: 0 <= i < |s.threads| ==> Consumed(s.threads[i]) >= 0.0
  }

  function Bound(c: Config, t0: real, t1: real): real {
    c.burst + c.rate * (t1 - t0)
  }

  /** Either nothing negative has been returned and the sum is in balance, or nothing positive can be taken any more. */
  ghost predicate Kept(c: Config, s: State, calls: seq<Call>, z0: real, t0: real, t1: real)
    requires c.rate > 0.0
  {
    && OfCalls(s, calls) && Gains(s.threads) <= Bound(c, t0, t1)
    && ((NoneNegative(s) && Balanced(c, s, z0, t0, t1)) || PastDrain(s, calls))
  }

  /** A step either exchanges zeroTime, or leaves it and what the thread has got alone. */
  lemma StepEffect(c: Config, zeroTime: real, t: Thread, spurious: bool)
    requires c.rate > 0.0
    ensures var (z, phase) := StepThread(c, zeroTime, t, spurious);
      var taken := Taken(t.call, Tokens(c, zeroTime, t.call.now));
      || (z == zeroTime && Consumed(Thread(t.call, phase)) == Consumed(t))
      || (taken.Some? && z == NewZeroTime(c, zeroTime, t.call.now, taken.value) && Consumed(t) == 0.0
          && Consumed(Thread(t.call, phase)) == taken.value)
  {
    hide Tokens, NewZeroTime, Taken;
  }

  /** A drain that returns a negative amount sets zeroTime to its own time; taking nothing does not set it back. */
  lemma NotPositive(c: Config, z: real, call: Call)
    requires ValidConfig(c) && call.amount >= 0.0
    requires var taken := Taken(call, Tokens(c, z, call.now)); taken.Some? && taken.value <= 0.0
    ensures var taken := Taken(call, Tokens(c, z, call.now)).value;
      var z' := NewZeroTime(c, z, call.now, taken);
      if taken < 0.0 then call.ConsumeOrDrain? && z' == call.now else z <= z'
  {
    var tokens := Tokens(c, z, call.now);
    NegativeExchange(c, z, call);
    ExchangeMeans(c, z, call.now, 0.0);
    assert (tokens - tokens) / c.rate == 0.0;
  }

  lemma BalanceBounds(c: Config, s: State, z0: real, t0: real, t1: real)
    requires ValidConfig(c) && t0 <= t1 && Balanced(c, s, z0, t0, t1) && NoneNegative(s)
    ensures Gains(s.threads) <= Bound(c, t0, t1)
  {
    GainsAreTotal(s.threads);
    NonNegativeProduct(c.rate, t1 - t0);
    if Total(s.threads) != 0.0 {
      WindowBound(c, Total(s.threads), z0, s.zeroTime, t0, t1);
    }
  }

  lemma NothingTaken(c: Config, s: State, calls: seq<Call>, j: nat)
    requires ValidConfig(c) && NonNegative(calls) && NoPumping(c, calls) && PastDrain(s, calls) && j < |calls|
    ensures var taken := Taken(calls[j], Tokens(c, s.zeroTime, calls[j].now)); taken.Some? ==> taken.value <= 0.0
  {
    var i :| 0 <= i < |calls| && calls[i].ConsumeOrDrain? && calls[i].now <= s.zeroTime;
    assert !Pumps(c, calls[j], calls[i]);
    var taken := Taken(calls[j], Tokens(c, s.zeroTime, calls[j].now));
    if taken.Some? && taken.value > 0.0 {
      TakingPumps(c, s.zeroTime, calls[j], calls[i]);
    }
  }

  lemma StepIsKept(c: Config, s: State, turn: Turn, calls: seq<Call>, z0: real, t0: real, t1: real)
    requires ValidConfig(c) && NonNegative(calls) && NoPumping(c, calls) && t0 <= t1
    requires Kept(c, s, calls, z0, t0, t1) && InWindow(s.threads, t0, t1)
    ensures Kept(c, Step(c, s, turn), calls, z0, t0, t1)
  {
    if turn.thread < |s.threads| {
      var j, t, r := turn.thread, s.threads[turn.thread], Step(c, s, turn);
      StepEffect(c, s.zeroTime, t, turn.spurious);
      GainsUpdate(s.threads, j, r.threads[j]);
      var taken := Taken(t.call, Tokens(c, s.zeroTime, t.call.now));
      if NoneNegative(s) && Balanced(c, s, z0, t0, t1) && Consumed(r.threads[j]) >= 0.0 {
        StepKeepsBalance(c, s, turn, z0, t0, t1);
        BalanceBounds(c, r, z0, t0, t1);
      } else if r.zeroTime != s.zeroTime || Consumed(r.threads[j]) != Consumed(t) {
        if PastDrain(s, calls) {
          NothingTaken(c, s, calls, j);
        }
        NotPositive(c, s.zeroTime, t.call);
      }
    }
  }

  lemma {:induction false} RunIsKept(c: Config, s: State, schedule: seq<Turn>, calls: seq<Call>, z0: real, t0: real,
                                     t1: real)
    requires ValidConfig(c) && NonNegative(calls) && NoPumping(c, calls) && t0 <= t1
    requires Kept(c, s, calls, z0, t0, t1) && InWindow(s.threads, t0, t1)
    ensures Kept(c, Run(c, s, schedule), calls, z0, t0, t1)
    decreases |schedule|
  {
    if schedule == [] {
    } else {
      StepIsKept(c, s, schedule[0], calls, z0, t0, t1);
      var r := Step(c, s, schedule[0]);
      assert InWindow(r.threads, t0, t1);
      hide Step, Kept, NoPumping, InWindow;
      RunIsKept(c, r, schedule[1..], calls, z0, t0, t1);
    }
  }

  lemma StartIsKept(c: Config, zeroTime: real, calls: seq<Call>, t0: real, t1: real)
    requires ValidConfig(c) && t0 <= t1 && forall i :: 0 <= i < |calls| ==> t0 <= calls[i].now <= t1
    ensures Kept(c, Start(zeroTime, calls), calls, zeroTime, t0, t1)
    ensures InWindow(Start(zeroTime, calls).threads, t0, t1)
  {
    var s := Start(zeroTime, calls);
    NothingConsumed(s.threads);
    assert NoneNegative(s);
    BalanceBounds(c, s, zeroTime, t0, t1);
  }

  /** Without pumping the positive amounts alone keep the rate, in every schedule and wherever zeroTime starts, also
      when calls overtake drains and negative amounts are returned. */
  lemma UnpumpedKeepRate(c: Config, zeroTime: real, calls: seq<Call>, schedule: seq<Turn>, t0: real, t1: real)
    requires ValidConfig(c) && t0 <= t1 && NonNegative(calls) && NoPumping(c, calls)
    requires forall i :: 0 <= i < |calls| ==> t0 <= calls[i].now <= t1
    ensures Gains(Run(c, Start(zeroTime, calls), schedule).threads) <= Bound(c, t0, t1)
  {
    hide Run, Start, Balanced, PastDrain, NoPumping, NonNegative, InWindow, Gains, Bound, OfCalls, NoneNegative;
    StartIsKept(c, zeroTime, calls, t0, t1);
    RunIsKept(c, Start(zeroTime, calls), schedule, calls, zeroTime, t0, t1);
  }

  // ---- With pumping ----

  /** What the rival takes at least in each round. */
  function Share(c: Config, rival: Call, drain: Call): real
    requires c.rate > 0.0
  {
    if rival.ConsumeOrDrain? then Min(rival.amount, Tokens(c, drain.now, rival.now)) else rival.amount
  }

  lemma SharePositive(c: Config, rival: Call, drain: Call)
    requires ValidConfig(c) && Pumps(c, rival, drain)
    ensures Share(c, rival, drain) > 0.0
  {
    TokensSign(c, drain.now, rival.now);
  }

  /** Half a round before the time of the drain: from there on the rival gets past it. */
  function Low(c: Config, rival: Call, drain: Call): real
    requires c.rate > 0.0
  {
    drain.now - Share(c, rival, drain) / c.rate / 2.0
  }

  lemma RivalPasses(c: Config, z: real, rival: Call, drain: Call)
    requires ValidConfig(c) && Pumps(c, rival, drain) && Low(c, rival, drain) <= z <= drain.now
    ensures var (z', got) := Alone(c, z, rival); got.Some? && got.value >= Share(c, rival, drain) && z' > drain.now
  {
    var share := Share(c, rival, drain);
    SharePositive(c, rival, drain);
    TokensFall(c, z, drain.now, rival.now);
    var taken := Taken(rival, Tokens(c, z, rival.now)).value;
    assert taken >= share;
    ExchangeMeans(c, z, rival.now, taken);
    DivideOrdered(share, taken, c.rate);
    PositiveQuotient(share, c.rate);
    hide Tokens, Taken, NewZeroTime, Share;
  }

  lemma DrainResets(c: Config, z: real, drain: Call)
    requires ValidConfig(c) && drain.ConsumeOrDrain? && drain.amount >= 0.0 && z > drain.now
    ensures var tokens := Tokens(c, z, drain.now);
      tokens < 0.0 && Taken(drain, tokens) == Some(tokens) && NewZeroTime(c, z, drain.now, tokens) == drain.now
  {
    TokensSign(c, z, drain.now);
    var tokens := Tokens(c, z, drain.now);
    assert (tokens - tokens) / c.rate == 0.0;
  }

  function Shares(k: nat, share: real): real { k as real * share }

  lemma OneMoreShare(k: nat, share: real)
    ensures Shares(0, share) == 0.0 && Shares(k + 1, share) == Shares(k, share) + share
  {
    Distribute(k as real, 1.0, share);
  }

  function Copies(call: Call, n: nat): seq<Call> {
    seq(n, i => call)
  }

  /** Of n drains and n rivals the first k have had their round: the other drains wait for their load. */
  ghost predicate Ready(c: Config, s: State, rival: Call, drain: Call, n: nat, k: nat)
    requires c.rate > 0.0
  {
    && k <= n && |s.threads| == n + n && Low(c, rival, drain) <= s.zeroTime <= drain.now
    && (forall i :: 0 <= i < n ==> s.threads[i].call == drain && (i >= k ==> s.threads[i].phase == Checked))
    && (forall i :: n <= i < n + n ==> s.threads[i].call == rival && (i >= n + k ==> s.threads[i].phase == Entered))
    && Gains(s.threads) >= Shares(k, Share(c, rival, drain))
  }

  /** The rival of round k has taken its share and got past the drain. */
  ghost predicate Passed(c: Config, s: State, rival: Call, drain: Call, n: nat, k: nat)
    requires c.rate > 0.0
  {
    && k < n && |s.threads| == n + n && s.zeroTime > drain.now
    && (forall i :: 0 <= i < n ==> s.threads[i].call == drain && (i >= k ==> s.threads[i].phase == Checked))
    && (forall i :: n <= i < n + n ==> s.threads[i].call == rival && (i > n + k ==> s.threads[i].phase == Entered))
    && Gains(s.threads) >= Shares(k + 1, Share(c, rival, drain))
  }

  lemma RivalTurn(c: Config, s: State, rival: Call, drain: Call, n: nat, k: nat)
    requires ValidConfig(c) && Pumps(c, rival, drain) && k < n && Ready(c, s, rival, drain, n, k)
    ensures Passed(c, Run(c, s, Thrice(n + k)), rival, drain, n, k)
  {
    RivalPasses(c, s.zeroTime, rival, drain);
    AloneIsConcurrent(c, s, n + k);
    var (z, got) := Alone(c, s.zeroTime, rival);
    var t := Thread(rival, Done(got.value));
    GainsUpdate(s.threads, n + k, t);
    SharePositive(c, rival, drain);
    OneMoreShare(k, Share(c, rival, drain));
    hide Run, Thrice, Alone, Share, Shares, Gains, Low, Pumps, Taken;
    assert Run(c, s, Thrice(n + k)) == State(z, s.threads[n + k := t]);
  }

  lemma DrainTurn(c: Config, s: State, rival: Call, drain: Call, n: nat, k: nat)
    requires ValidConfig(c) && Pumps(c, rival, drain) && drain.amount >= 0.0 && Passed(c, s, rival, drain, n, k)
    ensures Ready(c, Run(c, s, [Turn(k, false), Turn(k, false)]), rival, drain, n, k + 1)
  {
    var t, z := Turn(k, false), s.zeroTime;
    var tokens := Tokens(c, z, drain.now);
    DrainResets(c, z, drain);
    var s1 := State(z, s.threads[k := Thread(drain, Loaded(z))]);
    var s2 := State(drain.now, s.threads[k := Thread(drain, Done(tokens))]);
    assert Step(c, s, t) == s1;
    DrainSteps(c, s1, k, drain, z, s2);
    GainsUpdate(s.threads, k, Thread(drain, Done(tokens)));
    LowBelow(c, rival, drain);
    hide Step, Run, Share, Shares, Low, Gains, Tokens, Pumps;
    RunNothing(c, s2);
    RunStep(c, s1, t, []);
    RunStep(c, s, t, [t]);
    assert [t] + [t] == [t, t] && [t] + [] == [t];
  }

  lemma OneRound(c: Config, s: State, rival: Call, drain: Call, n: nat, k: nat) returns (schedule: seq<Turn>)
    requires ValidConfig(c) && Pumps(c, rival, drain) && drain.amount >= 0.0 && k < n && Ready(c, s, rival, drain, n, k)
    ensures Ready(c, Run(c, s, schedule), rival, drain, n, k + 1)
  {
    hide Ready, Passed, Run, Pumps, Thrice;
    RivalTurn(c, s, rival, drain, n, k);
    DrainTurn(c, Run(c, s, Thrice(n + k)), rival, drain, n, k);
    RunAppend(c, s, Thrice(n + k), [Turn(k, false), Turn(k, false)]);
    schedule := Thrice(n + k) + [Turn(k, false), Turn(k, false)];
  }

  lemma DrainSteps(c: Config, s: State, k: nat, drain: Call, z: real, r: State)
    requires ValidConfig(c) && k < |s.threads| && s.zeroTime == z > drain.now
    requires s.threads[k] == Thread(drain, Loaded(z)) && drain.ConsumeOrDrain? && drain.amount >= 0.0
    requires r == State(drain.now, s.threads[k := Thread(drain, Done(Tokens(c, z, drain.now)))])
    ensures Step(c, s, Turn(k, false)) == r
  {
    DrainResets(c, z, drain);
    hide Tokens, NewZeroTime, Taken;
  }

  lemma LowBelow(c: Config, rival: Call, drain: Call)
    requires ValidConfig(c) && Pumps(c, rival, drain)
    ensures Low(c, rival, drain) < drain.now
  {
    SharePositive(c, rival, drain);
    PositiveQuotient(Share(c, rival, drain), c.rate);
  }

  lemma {:induction false} AllRounds(c: Config, s: State, rival: Call, drain: Call, n: nat, k: nat)
      returns (schedule: seq<Turn>)
    requires ValidConfig(c) && Pumps(c, rival, drain) && drain.amount >= 0.0 && Ready(c, s, rival, drain, n, k)
    ensures Ready(c, Run(c, s, schedule), rival, drain, n, n)
    decreases n - k
  {
    hide Ready, Run, Pumps;
    if k >= n {
      RoundsEnd(c, s, rival, drain, n, k);
      RunNothing(c, s);
      schedule := [];
    } else {
      var first := OneRound(c, s, rival, drain, n, k);
      var rest := AllRounds(c, Run(c, s, first), rival, drain, n, k + 1);
      RunAppend(c, s, first, rest);
      schedule := first + rest;
    }
  }

  lemma RoundsEnd(c: Config, s: State, rival: Call, drain: Call, n: nat, k: nat)
    requires c.rate > 0.0 && Ready(c, s, rival, drain, n, k) && k >= n
    ensures k == n
  {
  }

  /** Before the rounds the first m drains have passed their check. */
  ghost predicate Checking(s: State, rival: Call, drain: Call, n: nat, m: nat) {
    && m <= n && |s.threads| == n + n && s.zeroTime < drain.now
    && (forall i :: 0 <= i < n ==> s.threads[i] == Thread(drain, if i < m then Checked else Entered))
    && (forall i :: n <= i < n + n ==> s.threads[i] == Thread(rival, Entered))
  }

  lemma {:induction false} AllChecked(c: Config, s: State, rival: Call, drain: Call, n: nat, m: nat)
      returns (schedule: seq<Turn>)
    requires ValidConfig(c) && Checking(s, rival, drain, n, m)
    ensures var r := Run(c, s, schedule); Checking(r, rival, drain, n, n) && r.zeroTime == s.zeroTime
    decreases n - m
  {
    if m == n {
      schedule := [];
    } else {
      var r := Step(c, s, Turn(m, false));
      var rest := AllChecked(c, r, rival, drain, n, m + 1);
      RunStep(c, s, Turn(m, false), rest);
      schedule := [Turn(m, false)] + rest;
    }
  }

  lemma {:induction false} GainsNonNegative(threads: seq<Thread>)
    ensures Gains(threads) >= 0.0
  {
    if threads == [] {
    } else {
      GainsNonNegative(threads[1..]);
    }
  }

  ghost predicate MadeOf(calls: seq<Call>, kinds: seq<Call>) {
    forall i :: 0 <= i < |calls| ==> calls[i] in kinds
  }

  /** In this schedule the positive amounts come to more than the bound. */
  ghost predicate Exceeds(c: Config, zeroTime: real, calls: seq<Call>, schedule: seq<Turn>, bound: real)
    requires c.rate > 0.0
  {
    Gains(Run(c, Start(zeroTime, calls), schedule).threads) > bound
  }

  lemma Rounds(share: real, bound: real) returns (n: nat)
    requires share > 0.0
    ensures Shares(n, share) > bound
  {
    var q := Max(0.0, bound) / share;
    n := q.Floor + 1;
    DivideProduct(Max(0.0, bound), share);
    PositiveProduct(n as real - q, share);
    Distribute(n as real, 0.0 - q, share);
  }

  /** With one pumping pair, each call made often enough, the positive amounts exceed any bound. */
  lemma PumpsExceedAll(c: Config, rival: Call, drain: Call, bound: real)
    requires ValidConfig(c) && Pumps(c, rival, drain) && drain.amount >= 0.0
    ensures exists zeroTime, calls, schedule ::
      MadeOf(calls, [rival, drain]) && Exceeds(c, zeroTime, calls, schedule, bound)
  {
    SharePositive(c, rival, drain);
    var n := Rounds(Share(c, rival, drain), bound);
    var calls, z := Copies(drain, n) + Copies(rival, n), Low(c, rival, drain);
    var checks := StartReady(c, rival, drain, n);
    hide Run, Share, Shares, Low, Start, Ready, Gains, Pumps;
    var s := Start(z, calls);
    var rounds := AllRounds(c, Run(c, s, checks), rival, drain, n, 0);
    RunAppend(c, s, checks, rounds);
    ReadyGains(c, Run(c, s, checks + rounds), rival, drain, n, n);
    assert MadeOf(calls, [rival, drain]);
    assert Exceeds(c, z, calls, checks + rounds, bound);
  }

  lemma ReadyGains(c: Config, s: State, rival: Call, drain: Call, n: nat, k: nat)
    requires c.rate > 0.0 && Ready(c, s, rival, drain, n, k)
    ensures Gains(s.threads) >= Shares(k, Share(c, rival, drain))
  {
  }

  lemma StartReady(c: Config, rival: Call, drain: Call, n: nat) returns (checks: seq<Turn>)
    requires ValidConfig(c) && Pumps(c, rival, drain)
    ensures var calls := Copies(drain, n) + Copies(rival, n);
      Ready(c, Run(c, Start(Low(c, rival, drain), calls), checks), rival, drain, n, 0)
  {
    var s := Start(Low(c, rival, drain), Copies(drain, n) + Copies(rival, n));
    LowBelow(c, rival, drain);
    assert Checking(s, rival, drain, n, 0);
    hide Low, Start;
    checks := AllChecked(c, s, rival, drain, n, 0);
    hide Run;
    GainsNonNegative(Run(c, s, checks).threads);
    OneMoreShare(0, Share(c, rival, drain));
  }

  // ---- The theorem ----

  /** However often the calls are made, in whatever schedule: the positive amounts keep the rate. */
  ghost predicate AnyNumberKeepsRate(c: Config, kinds: seq<Call>, t0: real, t1: real)
    requires c.rate > 0.0
  {
    forall zeroTime, calls, schedule :: MadeOf(calls, kinds) ==>
      !Exceeds(c, zeroTime, calls, schedule, Bound(c, t0, t1))
  }

  /** Calls of given kinds, made any number of times in a window, keep the rate by their positive amounts alone if and
      only if none of them pumps; otherwise there is no bound at all. */
  lemma GainsExactly(c: Config, kinds: seq<Call>, t0: real, t1: real)
    requires ValidConfig(c) && t0 <= t1 && NonNegative(kinds)
    requires forall i :: 0 <= i < |kinds| ==> t0 <= kinds[i].now <= t1
    ensures AnyNumberKeepsRate(c, kinds, t0, t1) <==> NoPumping(c, kinds)
  {
    var bound := Bound(c, t0, t1);
    if NoPumping(c, kinds) {
      forall zeroTime, calls, schedule | MadeOf(calls, kinds) ensures !Exceeds(c, zeroTime, calls, schedule, bound) {
        MadeOfUnpumped(c, calls, kinds, t0, t1);
        UnpumpedKeepRate(c, zeroTime, calls, schedule, t0, t1);
      }
    } else {
      var i, j :| 0 <= i < |kinds| && 0 <= j < |kinds| && Pumps(c, kinds[j], kinds[i]);
      PumpsExceedAll(c, kinds[j], kinds[i], bound);
      var zeroTime, calls, schedule :|
        MadeOf(calls, [kinds[j], kinds[i]]) && Exceeds(c, zeroTime, calls, schedule, bound);
      assert MadeOf(calls, kinds);
    }
  }

  lemma MadeOfUnpumped(c: Config, calls: seq<Call>, kinds: seq<Call>, t0: real, t1: real)
    requires c.rate > 0.0 && MadeOf(calls, kinds) && NoPumping(c, kinds) && NonNegative(kinds)
    requires forall i :: 0 <= i < |kinds| ==> t0 <= kinds[i].now <= t1
    ensures NoPumping(c, calls) && NonNegative(calls) && forall i :: 0 <= i < |calls| ==> t0 <= calls[i].now <= t1
  {
    forall i, j | 0 <= i < |calls| && 0 <= j < |calls| ensures !Pumps(c, calls[j], calls[i]) {
      var k :| 0 <= k < |kinds| && kinds[k] == calls[i];
      var l :| 0 <= l < |kinds| && kinds[l] == calls[j];
      assert !Pumps(c, kinds[l], kinds[k]);
    }
    forall i | 0 <= i < |calls| ensures calls[i].amount >= 0.0 && t0 <= calls[i].now <= t1 {
      var k :| 0 <= k < |kinds| && kinds[k] == calls[i];
    }
  }
}
