/** What each concurrent call returns, in terms of the zeroTimes it met: a call that is done got all it asked for, or
    found too little at some turn of its own; a compare-exchange that fails does not end it. */
module TokenCalls {
  import opened TokenBucket
  import opened TokenDrains
  import opened Options

  // ---- The moments of a run ----

  /** zs[j] is zeroTime before turn j of the schedule, and zs[j + 1] after it. */
  ghost predicate Spans(zs: seq<real>, schedule: seq<Turn>) {
    |zs| == |schedule| + 1
  }

  /** At turn j, one of the first k, thread i had its turn. */
  predicate Own(schedule: seq<Turn>, i: nat, k: nat, j: nat) {
    j < k && j < |schedule| && schedule[j].thread == i
  }

  /** At some turn of thread i the bucket had last been empty before `now`. */
  ghost predicate Passed(zs: seq<real>, schedule: seq<Turn>, i: nat, k: nat, now: real)
    requires Spans(zs, schedule)
  {
    exists j: nat :: Own(schedule, i, k, j) && zs[j] < now
  }

  ghost predicate Refused(zs: seq<real>, schedule: seq<Turn>, i: nat, k: nat, now: real)
    requires Spans(zs, schedule)
  {
    exists j: nat :: Own(schedule, i, k, j) && now <= zs[j]
  }

  ghost predicate Saw(zs: seq<real>, schedule: seq<Turn>, i: nat, k: nat, zeroTime: real)
    requires Spans(zs, schedule)
  {
    exists j: nat :: Own(schedule, i, k, j) && zs[j] == zeroTime
  }

  /** At some turn of thread i zeroTime left it less than the amount. */
  ghost predicate Short(c: Config, zs: seq<real>, schedule: seq<Turn>, i: nat, k: nat, call: Call)
    requires c.rate > 0.0 && Spans(zs, schedule)
  {
    exists j: nat :: Own(schedule, i, k, j) && Tokens(c, zs[j], call.now) < call.amount
  }

  /** In one turn of thread i the call took x of what zeroTime left it, and moved zeroTime on by as much. */
  ghost predicate Took(c: Config, zs: seq<real>, schedule: seq<Turn>, i: nat, k: nat, call: Call, x: real)
    requires c.rate > 0.0 && Spans(zs, schedule)
  {
    exists j: nat :: Own(schedule, i, k, j) && Takes(c, zs[j], zs[j + 1], call, x)
  }

  /** What an exchange from z to z' means. */
  predicate Takes(c: Config, z: real, z': real, call: Call, x: real)
    requires c.rate > 0.0
  {
    var tokens := Tokens(c, z, call.now);
    && (if call.Consume? then call.amount <= tokens && x == call.amount else x == Min(call.amount, tokens))
    && z' == Max(z, Full(c, call.now)) + x / c.rate
  }

  /** What is known of a call at a phase, from the turns it had. */
  ghost predicate Explained(c: Config, zs: seq<real>, schedule: seq<Turn>, i: nat, k: nat, t: Thread)
    requires c.rate > 0.0 && Spans(zs, schedule)
  {
    match t.phase
    case Entered => true
    case Checked => Passed(zs, schedule, i, k, t.call.now)
    case Loaded(z) => Passed(zs, schedule, i, k, t.call.now) && Saw(zs, schedule, i, k, z)
    case Done(x) =>
      || (x == 0.0 && Refused(zs, schedule, i, k, t.call.now))
      || (Passed(zs, schedule, i, k, t.call.now)
          && ((x == 0.0 && t.call.Consume? && Short(c, zs, schedule, i, k, t.call))
              || Took(c, zs, schedule, i, k, t.call, x)))
  }

  lemma Later(c: Config, zs: seq<real>, schedule: seq<Turn>, i: nat, k: nat, t: Thread)
    requires c.rate > 0.0 && Spans(zs, schedule) && Explained(c, zs, schedule, i, k, t)
    ensures Explained(c, zs, schedule, i, k + 1, t)
  {
    assert forall j: nat :: Own(schedule, i, k, j) ==> Own(schedule, i, k + 1, j);
    hide Takes, Tokens, Own;
  }

  /** One turn of the thread keeps what is known of it. */
  lemma TurnExplained(c: Config, zs: seq<real>, schedule: seq<Turn>, i: nat, k: nat, t: Thread)
    requires ValidConfig(c) && Spans(zs, schedule) && k < |schedule| && schedule[k].thread == i
    requires Explained(c, zs, schedule, i, k, t) && zs[k + 1] == StepThread(c, zs[k], t, schedule[k].spurious).0
    ensures Explained(c, zs, schedule, i, k + 1, Thread(t.call, StepThread(c, zs[k], t, schedule[k].spurious).1))
  {
    Later(c, zs, schedule, i, k, t);
    assert Own(schedule, i, k + 1, k);
    var tokens := Tokens(c, zs[k], t.call.now);
    if t.phase.Loaded? && Taken(t.call, tokens).Some? {
      ExchangeMeans(c, zs[k], t.call.now, Taken(t.call, tokens).value);
    }
    hide Own, NewZeroTime, Tokens, Full;
  }

  // ---- The runs ----

  function At(c: Config, s: State, schedule: seq<Turn>, k: nat): State
    requires c.rate > 0.0 && k <= |schedule|
  {
    Run(c, s, schedule[..k])
  }

  /** zeroTime at every moment of the run. */
  function Times(c: Config, s: State, schedule: seq<Turn>): seq<real>
    requires c.rate > 0.0
  {
    seq(|schedule| + 1, k requires 0 <= k <= |schedule| => At(c, s, schedule, k).zeroTime)
  }

  lemma NextMoment(c: Config, s: State, schedule: seq<Turn>, k: nat)
    requires c.rate > 0.0 && k < |schedule|
    ensures At(c, s, schedule, k + 1) == Step(c, At(c, s, schedule, k), schedule[k])
  {
    assert schedule[..k + 1] == schedule[..k] + [schedule[k]];
    RunAppend(c, s, schedule[..k], [schedule[k]]);
    assert [schedule[k]][1..] == [];
    assert Run(c, At(c, s, schedule, k), [schedule[k]]) == Run(c, Step(c, At(c, s, schedule, k), schedule[k]), []);
  }

  lemma {:induction false} AlwaysExplained(c: Config, s: State, schedule: seq<Turn>, i: nat, k: nat)
    requires ValidConfig(c) && k <= |schedule| && i < |s.threads| && s.threads[i].phase == Entered
    ensures var r := At(c, s, schedule, k);
      |r.threads| == |s.threads| && r.threads[i].call == s.threads[i].call
      && Explained(c, Times(c, s, schedule), schedule, i, k, r.threads[i])
    decreases k
  {
    if k == 0 {
      assert schedule[..0] == [];
    } else {
      AlwaysExplained(c, s, schedule, i, k - 1);
      NextMoment(c, s, schedule, k - 1);
      var t, zs := At(c, s, schedule, k - 1).threads[i], Times(c, s, schedule);
      Later(c, zs, schedule, i, k - 1, t);
      assert zs[k - 1] == At(c, s, schedule, k - 1).zeroTime && zs[k] == At(c, s, schedule, k).zeroTime;
      hide Explained, Times, At, Run, StepThread;
      if schedule[k - 1].thread == i {
        TurnExplained(c, zs, schedule, i, k - 1, t);
      }
    }
  }

  lemma CallExplained(c: Config, zeroTime: real, calls: seq<Call>, schedule: seq<Turn>, i: nat)
    requires ValidConfig(c) && i < |calls|
    ensures var s := Start(zeroTime, calls);
      var t := Run(c, s, schedule).threads;
      |t| == |calls| && t[i].call == calls[i] && Explained(c, Times(c, s, schedule), schedule, i, |schedule|, t[i])
  {
    AlwaysExplained(c, Start(zeroTime, calls), schedule, i, |schedule|);
    assert schedule[..|schedule|] == schedule;
  }

  // ---- The theorems ----

  /** In every interleaving a consume that is done took exactly its amount at a turn when that much was there, or got
      nothing because at some turn of its own the bucket had been empty until its time or held less than the amount. */
  lemma ConsumeReturns(c: Config, zeroTime: real, calls: seq<Call>, schedule: seq<Turn>, i: nat)
    requires ValidConfig(c) && i < |calls| && calls[i].Consume? && calls[i].amount > 0.0
    ensures var s, n := Start(zeroTime, calls), |schedule|;
      var t, zs := Run(c, s, schedule).threads, Times(c, s, schedule);
      |t| == |calls| && (t[i].phase.Done? ==>
        || (t[i].phase.consumed == calls[i].amount && Took(c, zs, schedule, i, n, calls[i], calls[i].amount))
        || (t[i].phase.consumed == 0.0
            && (Refused(zs, schedule, i, n, calls[i].now) || Short(c, zs, schedule, i, n, calls[i]))))
  {
    CallExplained(c, zeroTime, calls, schedule, i);
  }

  /** A consumeOrDrain that is done took the smaller of its amount and what the zeroTime it exchanged left it, or got
      nothing because its check found the bucket empty until its time. */
  lemma DrainReturns(c: Config, zeroTime: real, calls: seq<Call>, schedule: seq<Turn>, i: nat)
    requires ValidConfig(c) && i < |calls| && calls[i].ConsumeOrDrain?
    ensures var s, n := Start(zeroTime, calls), |schedule|;
      var t, zs := Run(c, s, schedule).threads, Times(c, s, schedule);
      |t| == |calls| && (t[i].phase.Done? ==>
        || Took(c, zs, schedule, i, n, calls[i], t[i].phase.consumed)
        || (t[i].phase.consumed == 0.0 && Refused(zs, schedule, i, n, calls[i].now)))
  {
    CallExplained(c, zeroTime, calls, schedule, i);
  }

  /** A turn in the compare-exchange loop. It gives up exactly when a consume had loaded too little; otherwise it ends
      the call if zeroTime is still what was loaded and the exchange does not fail spuriously, and else it leaves the
      call in the loop with the zeroTime of the moment, and the bucket untouched. */
  lemma LoopTurn(c: Config, s: State, turn: Turn, loaded: real)
    requires ValidConfig(c) && turn.thread < |s.threads| && s.threads[turn.thread].phase == Loaded(loaded)
    ensures var call, r := s.threads[turn.thread].call, Step(c, s, turn);
      |r.threads| == |s.threads|
      && (forall j :: 0 <= j < |s.threads| && j != turn.thread ==> r.threads[j] == s.threads[j])
      && var tokens := Tokens(c, loaded, call.now);
         if call.Consume? && tokens < call.amount then
           r.zeroTime == s.zeroTime && r.threads[turn.thread] == Thread(call, Done(0.0))
         else if s.zeroTime == loaded && !turn.spurious then
           var x := Min(call.amount, tokens);
           r.zeroTime == Max(loaded, Full(c, call.now)) + x / c.rate
           && r.threads[turn.thread] == Thread(call, Done(x))
         else r.zeroTime == s.zeroTime && r.threads[turn.thread] == Thread(call, Loaded(s.zeroTime))
  {
    var call := s.threads[turn.thread].call;
    ExchangeMeans(c, loaded, call.now, Min(call.amount, Tokens(c, loaded, call.now)));
  }
}
