/** What consumeWithBorrowNonBlocking gives among concurrent calls: all it was asked for, unless that is more than the
    burst size, and a time to wait that fits what zeroTime was when it lent. */
module TokenLoans {
  import opened TokenBucket
  import opened TokenBorrow
  import opened TokenCalls
  import opened Options

  // ---- Calls that do not borrow ----

  function PhaseOf(t: Caller): Phase {
    match t.stage
    case Entering => Entered
    case Checking => Checked
    case Holding(z) => Loaded(z)
    case _ => Done(t.got)
  }

  /** A consume or consumeOrDrain among borrowers takes the same turns as among its like. */
  lemma WholeIsCall(c: Config, zeroTime: real, t: Caller, spurious: bool)
    requires c.rate > 0.0 && t.want.Whole? && !Lends(t) && (!t.stage.Over? ==> t.got == 0.0)
    ensures var (z, r) := Move(c, zeroTime, t, spurious);
      && (z, PhaseOf(r)) == StepThread(c, zeroTime, Thread(t.want.call, PhaseOf(t)), spurious)
      && r.want == t.want && r.ready == t.ready && !Lends(r) && (!r.stage.Over? ==> r.got == 0.0)
  {
  }

  // ---- Borrowers ----

  /** A drain that came too late counts against what was got: it gave tokens back. */
  ghost predicate GaveBack(c: Config, zs: seq<real>, schedule: seq<Turn>, i: nat, k: nat, now: real, x: real)
    requires c.rate > 0.0 && Spans(zs, schedule)
  {
    x < 0.0 && exists j: nat :: Own(schedule, i, k, j) && Tokens(c, zs[j], now) == x
  }

  /** In one turn of caller i zeroTime was moved forward by what the amount takes to come in, and the caller is to wait
      until then. */
  ghost predicate LentAt(c: Config, zs: seq<real>, schedule: seq<Turn>, i: nat, k: nat, now: real, amount: real,
                         ready: real)
    requires c.rate > 0.0 && Spans(zs, schedule)
  {
    exists j: nat :: Own(schedule, i, k, j) && zs[j + 1] == zs[j] + amount / c.rate && ready == Max(now, zs[j + 1])
  }

  /** What is known of a borrower at a stage. */
  ghost predicate Accounted(c: Config, zs: seq<real>, schedule: seq<Turn>, i: nat, k: nat, t: Caller)
    requires c.rate > 0.0 && Spans(zs, schedule) && t.want.Borrow?
  {
    var amount, now := t.want.amount, t.want.now;
    var net := t.got + t.left - amount;
    match t.stage
    case Entering => net == 0.0 && 0.0 <= t.left <= amount && t.ready == now && (t.left < amount ==> amount <= c.burst)
    case Checking => net == 0.0 && 0.0 < t.left <= amount <= c.burst && t.ready == now
    case Holding(z) => net == 0.0 && 0.0 < t.left <= amount <= c.burst && t.ready == now && Saw(zs, schedule, i, k, z)
    case Lending =>
      && 0.0 < t.left <= amount <= c.burst && t.ready == now
      && (net == 0.0 || GaveBack(c, zs, schedule, i, k, now, net))
    case Lent(z) =>
      && 0.0 < t.left <= amount <= c.burst && t.ready == now && Saw(zs, schedule, i, k, z)
      && (net == 0.0 || GaveBack(c, zs, schedule, i, k, now, net))
    case Over =>
      if amount > c.burst then t.got == 0.0 && t.ready == now
      else
        || (t.got == amount && t.left == 0.0 && t.ready == now)
        || (0.0 < t.left <= amount && LentAt(c, zs, schedule, i, k, now, t.left, t.ready)
            && (t.got == amount || GaveBack(c, zs, schedule, i, k, now, t.got - amount)))
  }

  lemma LaterAccounted(c: Config, zs: seq<real>, schedule: seq<Turn>, i: nat, k: nat, t: Caller)
    requires c.rate > 0.0 && Spans(zs, schedule) && t.want.Borrow? && Accounted(c, zs, schedule, i, k, t)
    ensures Accounted(c, zs, schedule, i, k + 1, t)
  {
    assert forall j: nat :: Own(schedule, i, k, j) ==> Own(schedule, i, k + 1, j);
    hide Tokens, Own;
  }

  /** A borrower's turn in the loop of its drain. */
  lemma HoldingMoves(c: Config, zs: seq<real>, schedule: seq<Turn>, i: nat, k: nat, t: Caller)
    requires ValidConfig(c) && Spans(zs, schedule) && k < |schedule| && schedule[k].thread == i && t.want.Borrow?
    requires Accounted(c, zs, schedule, i, k, t) && t.stage.Holding?
    ensures var r := Move(c, zs[k], t, schedule[k].spurious).1;
      r.want == t.want && Accounted(c, zs, schedule, i, k + 1, r)
  {
    assert Own(schedule, i, k + 1, k);
    var tokens := Tokens(c, zs[k], t.want.now);
    hide Own, NewZeroTime, Tokens, GaveBack;
    if t.stage.zeroTimeOld == zs[k] && !schedule[k].spurious && tokens < 0.0 {
      GivesBackNow(c, zs, schedule, i, k, t.want.now);
    }
  }

  lemma GivesBackNow(c: Config, zs: seq<real>, schedule: seq<Turn>, i: nat, k: nat, now: real)
    requires c.rate > 0.0 && Spans(zs, schedule) && Own(schedule, i, k + 1, k) && Tokens(c, zs[k], now) < 0.0
    ensures GaveBack(c, zs, schedule, i, k + 1, now, Tokens(c, zs[k], now))
  {
  }

  /** And in the loop that lends. */
  lemma LentMoves(c: Config, zs: seq<real>, schedule: seq<Turn>, i: nat, k: nat, t: Caller)
    requires ValidConfig(c) && Spans(zs, schedule) && k < |schedule| && schedule[k].thread == i && t.want.Borrow?
    requires Accounted(c, zs, schedule, i, k, t) && t.stage.Lent?
    requires zs[k + 1] == Move(c, zs[k], t, schedule[k].spurious).0
    ensures var r := Move(c, zs[k], t, schedule[k].spurious).1;
      r.want == t.want && Accounted(c, zs, schedule, i, k + 1, r)
  {
    LaterAccounted(c, zs, schedule, i, k, t);
    assert Own(schedule, i, k + 1, k);
    assert (0.0 - t.left) / c.rate == 0.0 - t.left / c.rate;
    hide Own, Tokens, GaveBack;
  }

  lemma MoveAccounted(c: Config, zs: seq<real>, schedule: seq<Turn>, i: nat, k: nat, t: Caller)
    requires ValidConfig(c) && Spans(zs, schedule) && k < |schedule| && schedule[k].thread == i && t.want.Borrow?
    requires Accounted(c, zs, schedule, i, k, t) && zs[k + 1] == Move(c, zs[k], t, schedule[k].spurious).0
    ensures var r := Move(c, zs[k], t, schedule[k].spurious).1;
      r.want == t.want && Accounted(c, zs, schedule, i, k + 1, r)
  {
    if t.stage.Holding? {
      HoldingMoves(c, zs, schedule, i, k, t);
    } else if t.stage.Lent? {
      LentMoves(c, zs, schedule, i, k, t);
    } else {
      LaterAccounted(c, zs, schedule, i, k, t);
      assert Own(schedule, i, k + 1, k);
      hide Own, Tokens, GaveBack, LentAt, NewZeroTime;
    }
  }

  // ---- The runs ----

  function MomentAt(c: Config, s: Shared, schedule: seq<Turn>, k: nat): Shared
    requires c.rate > 0.0 && k <= |schedule|
  {
    Play(c, s, schedule[..k])
  }

  function Moments(c: Config, s: Shared, schedule: seq<Turn>): seq<real>
    requires c.rate > 0.0
  {
    seq(|schedule| + 1, k requires 0 <= k <= |schedule| => MomentAt(c, s, schedule, k).zeroTime)
  }

  lemma {:induction false} PlayAppend(c: Config, s: Shared, x: seq<Turn>, y: seq<Turn>)
    requires c.rate > 0.0
    ensures Play(c, s, x + y) == Play(c, Play(c, s, x), y)
    decreases |x|
  {
    if x == [] {
      assert x + y == y;
    } else {
      assert (x + y)[1..] == x[1..] + y;
      PlayAppend(c, Advance(c, s, x[0]), x[1..], y);
    }
  }

  lemma PlayOne(c: Config, s: Shared, turn: Turn)
    requires c.rate > 0.0
    ensures Play(c, s, [turn]) == Advance(c, s, turn)
  {
    assert [turn][1..] == [];
    assert Play(c, s, [turn]) == Play(c, Advance(c, s, turn), []);
  }

  lemma NextMomentAt(c: Config, s: Shared, schedule: seq<Turn>, k: nat)
    requires c.rate > 0.0 && k < |schedule|
    ensures MomentAt(c, s, schedule, k + 1) == Advance(c, MomentAt(c, s, schedule, k), schedule[k])
  {
    assert schedule[..k + 1] == schedule[..k] + [schedule[k]];
    PlayAppend(c, s, schedule[..k], [schedule[k]]);
    PlayOne(c, MomentAt(c, s, schedule, k), schedule[k]);
  }

  /** What is known of a caller of either kind. */
  ghost predicate Known(c: Config, zs: seq<real>, schedule: seq<Turn>, i: nat, k: nat, t: Caller)
    requires c.rate > 0.0 && Spans(zs, schedule)
  {
    match t.want
    case Borrow(_, _) => Accounted(c, zs, schedule, i, k, t)
    case Whole(call) =>
      && !Lends(t) && (!t.stage.Over? ==> t.got == 0.0) && t.ready == call.now
      && Explained(c, zs, schedule, i, k, Thread(call, PhaseOf(t)))
  }

  lemma MoveKnown(c: Config, zs: seq<real>, schedule: seq<Turn>, i: nat, k: nat, t: Caller)
    requires ValidConfig(c) && Spans(zs, schedule) && k < |schedule| && schedule[k].thread == i
    requires Known(c, zs, schedule, i, k, t) && zs[k + 1] == Move(c, zs[k], t, schedule[k].spurious).0
    ensures var r := Move(c, zs[k], t, schedule[k].spurious).1;
      r.want == t.want && Known(c, zs, schedule, i, k + 1, r)
  {
    hide Move, Explained, Accounted, StepThread;
    if t.want.Borrow? {
      MoveAccounted(c, zs, schedule, i, k, t);
    } else {
      WholeIsCall(c, zs[k], t, schedule[k].spurious);
      TurnExplained(c, zs, schedule, i, k, Thread(t.want.call, PhaseOf(t)));
    }
  }

  lemma LaterKnown(c: Config, zs: seq<real>, schedule: seq<Turn>, i: nat, k: nat, t: Caller)
    requires c.rate > 0.0 && Spans(zs, schedule) && Known(c, zs, schedule, i, k, t)
    ensures Known(c, zs, schedule, i, k + 1, t)
  {
    hide Accounted, Explained;
    if t.want.Borrow? {
      LaterAccounted(c, zs, schedule, i, k, t);
    } else {
      Later(c, zs, schedule, i, k, Thread(t.want.call, PhaseOf(t)));
    }
  }

  lemma {:induction false} AlwaysKnown(c: Config, zeroTime: real, wants: seq<Want>, schedule: seq<Turn>, i: nat, k: nat)
    requires ValidConfig(c) && k <= |schedule| && i < |wants| && (wants[i].Borrow? ==> wants[i].amount > 0.0)
    ensures var s := Open(zeroTime, wants);
      var r := MomentAt(c, s, schedule, k);
      |r.callers| == |wants| && r.callers[i].want == wants[i]
      && Known(c, Moments(c, s, schedule), schedule, i, k, r.callers[i])
    decreases k
  {
    var s := Open(zeroTime, wants);
    if k == 0 {
      assert schedule[..0] == [];
    } else {
      AlwaysKnown(c, zeroTime, wants, schedule, i, k - 1);
      NextMomentAt(c, s, schedule, k - 1);
      var t, zs := MomentAt(c, s, schedule, k - 1).callers[i], Moments(c, s, schedule);
      assert zs[k - 1] == MomentAt(c, s, schedule, k - 1).zeroTime && zs[k] == MomentAt(c, s, schedule, k).zeroTime;
      hide Known, Moments, MomentAt, Play, Move, Open;
      LaterKnown(c, zs, schedule, i, k - 1, t);
      if schedule[k - 1].thread == i {
        MoveKnown(c, zs, schedule, i, k - 1, t);
      }
    }
  }

  // ---- The theorems ----

  /** In every interleaving a borrower that is done was refused, because it asked for more than the burst size, or has
      all it asked for: either taken from the bucket, without a wait, or with the rest lent in one turn that moved
      zeroTime forward by just that much and told it to wait until then. Only a drain overtaken by another call counts
      against it. */
  lemma BorrowReturns(c: Config, zeroTime: real, wants: seq<Want>, schedule: seq<Turn>, i: nat)
    requires ValidConfig(c) && i < |wants| && wants[i].Borrow? && wants[i].amount > 0.0
    ensures var s, n, amount, now := Open(zeroTime, wants), |schedule|, wants[i].amount, wants[i].now;
      var zs, callers := Moments(c, s, schedule), Play(c, s, schedule).callers;
      |callers| == |wants| && (callers[i].stage.Over? ==>
        var t := callers[i];
        if amount > c.burst then t.got == 0.0 && t.ready == now
        else
          || (t.got == amount && t.ready == now)
          || (exists lent :: 0.0 < lent <= amount && LentAt(c, zs, schedule, i, n, now, lent, t.ready)
               && (t.got == amount || GaveBack(c, zs, schedule, i, n, now, t.got - amount))))
  {
    AlwaysKnown(c, zeroTime, wants, schedule, i, |schedule|);
    assert schedule[..|schedule|] == schedule;
  }

  /** Among borrowers, too, a consume or consumeOrDrain returns what the zeroTimes it met explain. */
  lemma WholeReturns(c: Config, zeroTime: real, wants: seq<Want>, schedule: seq<Turn>, i: nat)
    requires ValidConfig(c) && i < |wants| && wants[i].Whole?
    ensures var s := Open(zeroTime, wants);
      var callers := Play(c, s, schedule).callers;
      |callers| == |wants|
      && Explained(c, Moments(c, s, schedule), schedule, i, |schedule|, Thread(wants[i].call, PhaseOf(callers[i])))
      && callers[i].ready == wants[i].call.now
  {
    AlwaysKnown(c, zeroTime, wants, schedule, i, |schedule|);
    assert schedule[..|schedule|] == schedule;
  }

  /** A turn of a borrower in one of its two compare-exchange loops. When zeroTime is still what was loaded and the
      exchange does not fail spuriously, the drain takes what there is and the borrower goes round again, or, having got
      nothing, goes on to lend; and lending gives all that is left. Else it stays in the loop with the present
      zeroTime. */
  lemma BorrowTurn(c: Config, s: Shared, turn: Turn, loaded: real)
    requires ValidConfig(c) && turn.thread < |s.callers| && s.callers[turn.thread].want.Borrow?
    requires s.callers[turn.thread].stage in {Holding(loaded), Lent(loaded)}
    ensures var t, r := s.callers[turn.thread], Advance(c, s, turn);
      |r.callers| == |s.callers|
      && (forall j :: 0 <= j < |s.callers| && j != turn.thread ==> r.callers[j] == s.callers[j])
      && var t', now := r.callers[turn.thread], t.want.now;
         var x := Min(t.left, Tokens(c, loaded, now));
         if s.zeroTime != loaded || turn.spurious then
           r.zeroTime == s.zeroTime
           && t' == t.(stage := if t.stage.Lent? then Lent(s.zeroTime) else Holding(s.zeroTime))
         else if t.stage.Lent? then
           r.zeroTime == loaded + t.left / c.rate
           && t' == t.(got := t.got + t.left, ready := Max(t.ready, r.zeroTime), stage := Over)
         else
           r.zeroTime == Max(loaded, Full(c, now)) + x / c.rate
           && t' == if x > 0.0 then t.(got := t.got + x, left := t.left - x, stage := Entering)
                    else t.(got := t.got + x, stage := Lending)
  {
    hide Tokens, NewZeroTime, Full, Max;
    var t := s.callers[turn.thread];
    assert loaded - (0.0 - t.left) / c.rate == loaded + t.left / c.rate;
    ExchangeMeans(c, loaded, t.want.now, Min(t.left, Tokens(c, loaded, t.want.now)));
  }

  // ---- A borrower that is not disturbed ----

  /** Turns of caller i only. */
  predicate OnlyTurns(schedule: seq<Turn>, i: nat) {
    forall j :: 0 <= j < |schedule| ==> schedule[j] == Turn(i, false)
  }

  function With(s: Shared, i: nat, zeroTime: real, t: Caller): Shared
    requires i < |s.callers|
  {
    Shared(zeroTime, s.callers[i := t])
  }

  /** One turn in front of others. */
  lemma TurnThen(c: Config, s: Shared, i: nat, next: Shared, rest: seq<Turn>) returns (schedule: seq<Turn>)
    requires c.rate > 0.0 && Advance(c, s, Turn(i, false)) == next && OnlyTurns(rest, i)
    ensures OnlyTurns(schedule, i) && Play(c, s, schedule) == Play(c, next, rest)
  {
    schedule := [Turn(i, false)] + rest;
    assert schedule[1..] == rest;
  }

  /** From the load of the second loop on. */
  lemma LendsAlone(c: Config, s: Shared, i: nat, t: Caller) returns (schedule: seq<Turn>)
    requires c.rate > 0.0 && i < |s.callers| && s.callers[i] == t && t.stage.Lending?
    ensures OnlyTurns(schedule, i)
    ensures var z := s.zeroTime + t.left / c.rate;
      Play(c, s, schedule) == With(s, i, z, t.(got := t.got + t.left, ready := Max(t.ready, z), stage := Over))
  {
    var z := s.zeroTime + t.left / c.rate;
    assert (0.0 - t.left) / c.rate == 0.0 - t.left / c.rate;
    var lent := With(s, i, s.zeroTime, t.(stage := Lent(s.zeroTime)));
    var over := With(s, i, z, t.(got := t.got + t.left, ready := Max(t.ready, z), stage := Over));
    assert Advance(c, s, Turn(i, false)) == lent;
    assert lent.callers[i := over.callers[i]] == over.callers;
    schedule := TurnThen(c, lent, i, over, []);
    schedule := TurnThen(c, s, i, lent, schedule);
  }

  /** One drain of a borrower, up to where it goes round again. */
  lemma DrainsAlone(c: Config, s: Shared, i: nat, t: Caller) returns (schedule: seq<Turn>)
    requires ValidConfig(c) && i < |s.callers| && s.callers[i] == t && t.stage.Entering? && t.want.Borrow?
    requires t.want.amount <= c.burst && 0.0 < t.left && t.want.now > s.zeroTime
    ensures OnlyTurns(schedule, i)
    ensures var (z, got) := Alone(c, s.zeroTime, ConsumeOrDrain(t.left, t.want.now));
      && got.Some? && got.value > 0.0
      && Play(c, s, schedule)
        == With(s, i, z, t.(got := t.got + got.value, left := t.left - got.value, stage := Entering))
  {
    var (z, got) := Alone(c, s.zeroTime, ConsumeOrDrain(t.left, t.want.now));
    BorrowRound(c, s.zeroTime, t.want.now, t.left);
    var s1 := With(s, i, s.zeroTime, t.(stage := Checking));
    var s2 := With(s, i, s.zeroTime, t.(stage := Holding(s.zeroTime)));
    var s3 := With(s, i, z, t.(got := t.got + got.value, left := t.left - got.value, stage := Entering));
    assert s1.callers[i := s2.callers[i]] == s2.callers && s2.callers[i := s3.callers[i]] == s3.callers;
    assert Advance(c, s2, Turn(i, false)) == s3;
    assert Advance(c, s1, Turn(i, false)) == s2;
    assert Advance(c, s, Turn(i, false)) == s1;
    hide Advance, Play, Alone;
    schedule := TurnThen(c, s2, i, s3, []);
    schedule := TurnThen(c, s1, i, s2, schedule);
    schedule := TurnThen(c, s, i, s1, schedule);
    PlayNothing(c, s3);
  }

  lemma PlayNothing(c: Config, s: Shared)
    requires c.rate > 0.0
    ensures Play(c, s, []) == s
  {
  }

  /** Undisturbed, a borrower moves zeroTime by its amount in one line, whether it finds tokens or not, and waits until
      then if that is later than its time; what it asks for beyond the burst size is refused. */
  lemma BorrowsAlone(c: Config, s: Shared, i: nat, amount: real, now: real) returns (schedule: seq<Turn>)
    requires ValidConfig(c) && i < |s.callers| && s.callers[i] == Opening(Borrow(amount, now)) && amount > 0.0
    ensures OnlyTurns(schedule, i)
    ensures var r, z := Play(c, s, schedule), Max(s.zeroTime, Full(c, now)) + amount / c.rate;
      && |r.callers| == |s.callers| && r.callers[i].stage.Over?
      && (forall j :: 0 <= j < |s.callers| && j != i ==> r.callers[j] == s.callers[j])
      && if amount > c.burst then r.zeroTime == s.zeroTime && r.callers[i].got == 0.0 && r.callers[i].ready == now
         else r.zeroTime == z && r.callers[i].got == amount && r.callers[i].ready == Max(now, z)
  {
    var t := Opening(Borrow(amount, now));
    if amount > c.burst {
      var over := With(s, i, s.zeroTime, t.(stage := Over));
      assert Advance(c, s, Turn(i, false)) == over;
      schedule := TurnThen(c, s, i, over, []);
      PlayNothing(c, over);
    } else {
      BorrowRound(c, s.zeroTime, now, amount);
      schedule := [];
      var s1, t1 := s, t;
      if now > s.zeroTime {
        schedule := DrainsAlone(c, s, i, t);
        var (z, got) := Alone(c, s.zeroTime, ConsumeOrDrain(amount, now));
        t1 := t.(got := got.value, left := amount - got.value);
        s1 := With(s, i, z, t1);
      }
      hide Alone, Play;
      PlayNothing(c, s);
      var more := GoesRound(c, s1, i, t1);
      PlayAppend(c, s, schedule, more);
      schedule := schedule + more;
      assert t1.left / c.rate >= 0.0;
    }
  }

  /** With nothing left it is done; with nothing to be had the rest is lent. */
  lemma GoesRound(c: Config, s: Shared, i: nat, t: Caller) returns (schedule: seq<Turn>)
    requires ValidConfig(c) && i < |s.callers| && s.callers[i] == t && t.stage.Entering? && t.want.Borrow?
    requires t.want.amount <= c.burst && (t.left == 0.0 || (0.0 < t.left && t.want.now <= s.zeroTime))
    ensures OnlyTurns(schedule, i)
    ensures var r, z := Play(c, s, schedule), s.zeroTime + t.left / c.rate;
      && |r.callers| == |s.callers| && r.zeroTime == z
      && r.callers[i].stage.Over? && r.callers[i].got == t.got + t.left
      && r.callers[i].ready == (if t.left == 0.0 then t.ready else Max(t.ready, z))
      && forall j :: 0 <= j < |s.callers| && j != i ==> r.callers[j] == s.callers[j]
  {
    if t.left == 0.0 {
      var over := With(s, i, s.zeroTime, t.(stage := Over));
      assert Advance(c, s, Turn(i, false)) == over;
      schedule := TurnThen(c, s, i, over, []);
      PlayNothing(c, over);
    } else {
      var lending := With(s, i, s.zeroTime, t.(stage := Lending));
      assert Advance(c, s, Turn(i, false)) == lending;
      var rest := LendsAlone(c, lending, i, t.(stage := Lending));
      schedule := TurnThen(c, s, i, lending, rest);
    }
  }
}
