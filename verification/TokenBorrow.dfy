/** consumeWithBorrowNonBlocking among concurrent calls: its drains and the second compare-exchange loop, which lends
    the missing tokens from the future. */
module TokenBorrow {
  import opened TokenBucket
  import opened Options

  datatype Want = Whole(call: Call) | Borrow(amount: real, now: real)

  /** Before the check of a drain, before its load, in its compare-exchange loop; before the load of the loop that
      lends, in that loop; done. */
  datatype Stage = Entering | Checking | Holding(zeroTimeOld: real) | Lending | Lent(zeroTimeOld: real) | Over

  /** left is what is still to be consumed, got what the bucket has handed out to the call, and ready the time from
      which the call may use it. */
  datatype Caller = Caller(want: Want, left: real, got: real, ready: real, stage: Stage)

  datatype Shared = Shared(zeroTime: real, callers: seq<Caller>)

  function Now(w: Want): real {
    match w
    case Whole(call) => call.now
    case Borrow(_, now) => now
  }

  /** The exchange the caller is at. */
  function Current(t: Caller): Call {
    match t.want
    case Whole(call) => call
    case Borrow(_, now) => ConsumeOrDrain(t.left, now)
  }

  function Enter(c: Config, zeroTime: real, t: Caller): Caller {
    match t.want
    case Whole(call) => t.(stage := if call.now <= zeroTime then Over else Checking)
    case Borrow(amount, now) =>
      t.(stage := if c.burst < amount || t.left <= 0.0 then Over else if now <= zeroTime then Lending else Checking)
  }

  /** After a successful exchange a borrower goes round again, or lends what is left when it got nothing. */
  function Exchanged(t: Caller, taken: real): Caller {
    match t.want
    case Whole(_) => t.(got := t.got + taken, stage := Over)
    case Borrow(_, _) =>
      if taken > 0.0 then t.(got := t.got + taken, left := t.left - taken, stage := Entering)
      else t.(got := t.got + taken, stage := Lending)
  }

  function Move(c: Config, zeroTime: real, t: Caller, spurious: bool): (real, Caller)
    requires c.rate > 0.0
  {
    match t.stage
    case Entering => (zeroTime, Enter(c, zeroTime, t))
    case Checking => (zeroTime, t.(stage := Holding(zeroTime)))
    case Holding(zeroTimeOld) =>
      (match Taken(Current(t), Tokens(c, zeroTimeOld, Now(t.want)))
       case None => (zeroTime, t.(stage := Over))
       case Some(taken) =>
         if zeroTime == zeroTimeOld && !spurious
         then (NewZeroTime(c, zeroTimeOld, Now(t.want), taken), Exchanged(t, taken))
         else (zeroTime, t.(stage := Holding(zeroTime))))
    case Lending => (zeroTime, t.(stage := Lent(zeroTime)))
    case Lent(zeroTimeOld) =>
      if zeroTime == zeroTimeOld && !spurious then
        var zeroTimeNew := zeroTimeOld - (0.0 - t.left) / c.rate;
        (zeroTimeNew, t.(got := t.got + t.left, ready := Max(t.ready, zeroTimeNew), stage := Over))
      else (zeroTime, t.(stage := Lent(zeroTime)))
    case Over => (zeroTime, t)
  }

  function Advance(c: Config, s: Shared, turn: Turn): Shared
    requires c.rate > 0.0
  {
    if turn.thread >= |s.callers| then s
    else
      var (zeroTime, t) := Move(c, s.zeroTime, s.callers[turn.thread], turn.spurious);
      Shared(zeroTime, s.callers[turn.thread := t])
  }

  function Play(c: Config, s: Shared, schedule: seq<Turn>): Shared
    requires c.rate > 0.0
    decreases |schedule|
  {
    if schedule == [] then s else Play(c, Advance(c, s, schedule[0]), schedule[1..])
  }

  function Opening(w: Want): Caller {
    Caller(w, if w.Borrow? then w.amount else 0.0, 0.0, Now(w), Entering)
  }

  function Open(zeroTime: real, wants: seq<Want>): Shared {
    Shared(zeroTime, seq(|wants|, i requires 0 <= i < |wants| => Opening(wants[i])))
  }

  /** Everything handed out and lent so far. */
  function Given(callers: seq<Caller>): real {
    if callers == [] then 0.0 else callers[0].got + Given(callers[1..])
  }

  lemma {:induction false} GivenUpdate(callers: seq<Caller>, i: nat, t: Caller)
    requires i < |callers|
    ensures Given(callers[i := t]) == Given(callers) - callers[i].got + t.got
  {
    if i == 0 {
      assert callers[0 := t][1..] == callers[1..];
    } else {
      assert callers[i := t][1..] == callers[1..][i - 1 := t];
      GivenUpdate(callers[1..], i - 1, t);
    }
  }

  // ---- What every interleaving keeps ----

  predicate Lends(t: Caller) {
    t.stage.Lending? || t.stage.Lent?
  }

  /** The call came no earlier than t0, and a borrower at work still wants something. */
  ghost predicate Timely(t: Caller, t0: real) {
    && t0 <= Now(t.want) <= t.ready
    && (t.want.Whole? ==> !Lends(t))
    && (t.want.Borrow? && !t.stage.Entering? && !t.stage.Over? ==> t.left > 0.0)
  }

  /** Nothing has been exchanged yet. */
  ghost predicate Fresh(c: Config, s: Shared, z0: real, t0: real)
    requires c.rate > 0.0
  {
    && s.zeroTime == z0 && Given(s.callers) == 0.0
    && forall i :: 0 <= i < |s.callers| && Lends(s.callers[i]) ==> t0 <= z0
  }

  /** zeroTime has moved on by what was given, and some caller has to wait at least until zeroTime. */
  ghost predicate Moved(c: Config, s: Shared, z0: real, t0: real)
    requires c.rate > 0.0
  {
    && Max(z0, Full(c, t0)) + Given(s.callers) / c.rate <= s.zeroTime
    && exists i :: 0 <= i < |s.callers| && s.zeroTime <= s.callers[i].ready
  }

  ghost predicate Paid(c: Config, s: Shared, z0: real, t0: real)
    requires c.rate > 0.0
  {
    && (forall i :: 0 <= i < |s.callers| ==> Timely(s.callers[i], t0))
    && (Fresh(c, s, z0, t0) || Moved(c, s, z0, t0))
  }

  /** What one turn does to zeroTime and to the caller's account. */
  ghost predicate Accounts(c: Config, zeroTime: real, t: Caller, zeroTimeNew: real, r: Caller) {
    || (zeroTimeNew == zeroTime && r.got == t.got && r.ready == t.ready
        && (Lends(r) && !Lends(t) ==> Now(t.want) <= zeroTime))
    || (c.rate > 0.0 && zeroTimeNew == Max(zeroTime, Full(c, Now(t.want))) + (r.got - t.got) / c.rate
        && zeroTimeNew <= r.ready == t.ready)
    || (c.rate > 0.0 && Lends(t) && !Lends(r) && zeroTimeNew == zeroTime + (r.got - t.got) / c.rate
        && zeroTimeNew <= r.ready
        && t.ready <= r.ready)
  }

  lemma MoveAccounts(c: Config, zeroTime: real, t: Caller, spurious: bool, t0: real)
    requires ValidConfig(c) && Timely(t, t0)
    ensures var (zeroTimeNew, r) := Move(c, zeroTime, t, spurious);
      Timely(r, t0) && r.want == t.want && Accounts(c, zeroTime, t, zeroTimeNew, r)
  {
    match t.stage {
      case Holding(z) =>
        var tokens := Tokens(c, z, Now(t.want));
        if Taken(Current(t), tokens).Some? && zeroTime == z && !spurious {
          var taken := Taken(Current(t), tokens).value;
          ExchangeMeans(c, z, Now(t.want), taken);
          DivideOrdered(0.0, tokens - taken, c.rate);
        }
      case Lent(z) =>
        DivideSplits(0.0, t.left, c.rate);
      case _ =>
    }
  }

  lemma AdvancePays(c: Config, s: Shared, turn: Turn, z0: real, t0: real)
    requires ValidConfig(c) && Paid(c, s, z0, t0)
    ensures Paid(c, Advance(c, s, turn), z0, t0)
  {
    if turn.thread < |s.callers| {
      var j, t := turn.thread, s.callers[turn.thread];
      MoveAccounts(c, s.zeroTime, t, turn.spurious, t0);
      var (z, r) := Move(c, s.zeroTime, t, turn.spurious);
      GivenUpdate(s.callers, j, r);
      hide Move, Given;
      var n := Advance(c, s, turn);
      assert n == Shared(z, s.callers[j := r]) && Given(n.callers) == Given(s.callers) + (r.got - t.got);
      DivideSplits(Given(s.callers), r.got - t.got, c.rate);
      assert c.burst / c.rate > 0.0 && Full(c, t0) <= Full(c, Now(t.want)) && Full(c, t0) <= t0;
      if z == s.zeroTime && r.got == t.got && r.ready == t.ready && Moved(c, s, z0, t0) {
        var i :| 0 <= i < |s.callers| && s.zeroTime <= s.callers[i].ready;
        assert n.zeroTime <= n.callers[i].ready;
      } else if !(z == s.zeroTime && r.got == t.got && r.ready == t.ready) {
        assert n.zeroTime <= n.callers[j].ready;
        assert Moved(c, n, z0, t0);
      }
    }
  }

  lemma {:induction false} PlayPays(c: Config, s: Shared, schedule: seq<Turn>, z0: real, t0: real)
    requires ValidConfig(c) && Paid(c, s, z0, t0)
    ensures Paid(c, Play(c, s, schedule), z0, t0)
    decreases |schedule|
  {
    if schedule == [] {
    } else {
      AdvancePays(c, s, schedule[0], z0, t0);
      hide Advance, Paid;
      PlayPays(c, Advance(c, s, schedule[0]), schedule[1..], z0, t0);
    }
  }

  lemma {:induction false} NothingGiven(callers: seq<Caller>)
    requires forall i :: 0 <= i < |callers| ==> callers[i].got == 0.0
    ensures Given(callers) == 0.0
  {
    if callers == [] {
    } else {
      NothingGiven(callers[1..]);
    }
  }

  lemma OpenPays(c: Config, zeroTime: real, wants: seq<Want>, t0: real)
    requires c.rate > 0.0 && forall i :: 0 <= i < |wants| ==> t0 <= Now(wants[i])
    ensures Paid(c, Open(zeroTime, wants), zeroTime, t0)
  {
    NothingGiven(Open(zeroTime, wants).callers);
  }

  lemma PaidBound(c: Config, s: Shared, z0: real, t0: real, t1: real)
    requires ValidConfig(c) && t0 <= t1 && Paid(c, s, z0, t0) && forall t :: t in s.callers ==> t.ready <= t1
    ensures Given(s.callers) <= c.burst + c.rate * (t1 - t0)
  {
    if Moved(c, s, z0, t0) {
      var i :| 0 <= i < |s.callers| && s.zeroTime <= s.callers[i].ready;
      assert s.callers[i] in s.callers;
      hide Paid, Fresh, Given;
      WindowBound(c, Given(s.callers), z0, s.zeroTime, t0, t1);
    } else {
      NonNegativeProduct(c.rate, t1 - t0);
    }
  }

  /** Whatever the interleaving of consume, consumeOrDrain and borrowing calls made from t0 on: what they are given in
      sum, lent tokens included, keeps the rate until the time by which every one of them may use what it got. */
  lemma BorrowedKeepsRate(c: Config, zeroTime: real, wants: seq<Want>, schedule: seq<Turn>, t0: real, t1: real)
    requires ValidConfig(c) && t0 <= t1
    requires forall i :: 0 <= i < |wants| ==> t0 <= Now(wants[i])
    requires forall t :: t in Play(c, Open(zeroTime, wants), schedule).callers ==> t.ready <= t1
    ensures Given(Play(c, Open(zeroTime, wants), schedule).callers) <= c.burst + c.rate * (t1 - t0)
  {
    hide Play, Paid, Open;
    OpenPays(c, zeroTime, wants, t0);
    PlayPays(c, Open(zeroTime, wants), schedule, zeroTime, t0);
    PaidBound(c, Play(c, Open(zeroTime, wants), schedule), zeroTime, t0, t1);
  }
}
