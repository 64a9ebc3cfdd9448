/** The ring of shared surfaces between the game, which produces frames, and the launcher, which shows them. Two
    semaphores count the free and the submitted surfaces; each side moves an index of its own around the ring. */
module SurfaceRing {

  const SURFACES := 4

  type Frame = nat

  /** The shared fields of ReverseGameData. */
  datatype Ring = Ring(limit: nat, produceSema: nat, consumeSema: nat, produceIdx: nat, consumeIdx: nat)

  /** What the producer is at: between GetNextSurface and the two halves of SubmitSurface. */
  datatype Producer = ProducerIdle | Drawing | Advanced

  /** What the consumer is at: FetchSurface waits, reads the index and advances it before the surface is used. */
  datatype Consumer = ConsumerIdle | Woken | Indexed(at: nat) | Showing(index: nat)

  /** submitted, fetched and seen are history: the frames handed over, how many fetches are complete, and what
      each look at a surface showed, with the number of its fetch. */
  datatype State = State(ring: Ring, surfaces: seq<Frame>, producer: Producer, consumer: Consumer,
                         submitted: seq<Frame>, fetched: nat, seen: seq<(nat, Frame)>)

  // ---- The fields ----

  /** ReleaseSemaphore fails, and changes nothing, at the maximum count. */
  function Release(count: nat, limit: nat): nat {
    if count < limit then count + 1 else count
  }

  function AdvanceProduce(r: Ring): Ring
    requires r.limit > 0
  {
    r.(produceIdx := (r.produceIdx + 1) % r.limit)
  }

  function AdvanceConsume(r: Ring): Ring
    requires r.limit > 0
  {
    r.(consumeIdx := (r.consumeIdx + 1) % r.limit)
  }

  function SignalConsume(r: Ring): Ring {
    r.(consumeSema := Release(r.consumeSema, r.limit))
  }

  function SignalProduce(r: Ring): Ring {
    r.(produceSema := Release(r.produceSema, r.limit))
  }

  // ---- The two threads, one step at a time ----

  datatype Step =
    | TakeFree            // GetNextSurface: the wait succeeds
    | Draw(frame: Frame)
    | MoveProduce         // SubmitSurface: the index
    | Submit              // SubmitSurface: the semaphore
    | TakeSubmitted       // FetchSurface: the wait succeeds
    | ReadIndex           // FetchSurfaceIdx
    | MoveConsume
    | Look
    | GiveBack            // ReleaseSurface
    | Timeout             // either wait gives up

  predicate Enabled(s: State, step: Step) {
    match step
    case TakeFree => s.producer == ProducerIdle && s.ring.produceSema > 0
    case Draw(_) => s.producer == Drawing
    case MoveProduce => s.producer == Drawing
    case Submit => s.producer == Advanced
    case TakeSubmitted => s.consumer == ConsumerIdle && s.ring.consumeSema > 0
    case ReadIndex => s.consumer == Woken
    case MoveConsume => s.consumer.Indexed?
    case Look => s.consumer.Showing?
    case GiveBack => s.consumer.Showing?
    case Timeout => true
  }

  /** The indices are those of surfaces. */
  predicate InRange(s: State) {
    s.ring.limit > 0 && s.ring.produceIdx < |s.surfaces|
      && (s.consumer.Showing? ==> s.fetched > 0 && s.consumer.index < |s.surfaces|)
  }

  function Next(s: State, step: Step): State
    requires InRange(s) && Enabled(s, step)
  {
    var r := s.ring;
    match step
    case TakeFree => s.(ring := r.(produceSema := r.produceSema - 1), producer := Drawing)
    case Draw(frame) => s.(surfaces := s.surfaces[r.produceIdx := frame])
    case MoveProduce =>
      s.(ring := AdvanceProduce(r), producer := Advanced, submitted := s.submitted + [s.surfaces[r.produceIdx]])
    case Submit => s.(ring := SignalConsume(r), producer := ProducerIdle)
    case TakeSubmitted => s.(ring := r.(consumeSema := r.consumeSema - 1), consumer := Woken)
    case ReadIndex => s.(consumer := Indexed(r.consumeIdx))
    case MoveConsume => s.(ring := AdvanceConsume(r), consumer := Showing(s.consumer.at), fetched := s.fetched + 1)
    case Look => s.(seen := s.seen + [(s.fetched - 1, s.surfaces[s.consumer.index])])
    case GiveBack => s.(ring := SignalProduce(r), consumer := ConsumerIdle)
    case Timeout => s
  }

  predicate AllEnabled(s: State, steps: seq<Step>)
    decreases |steps|
  {
    steps == [] || (InRange(s) && Enabled(s, steps[0]) && AllEnabled(Next(s, steps[0]), steps[1..]))
  }

  function Run(s: State, steps: seq<Step>): State
    requires AllEnabled(s, steps)
    decreases |steps|
  {
    if steps == [] then s else Run(Next(s, steps[0]), steps[1..])
  }

  // ---- Where the i-th submission and the i-th fetch are ----

  /** The indices that the two sides start with, and what is on the first surface to be fetched. */
  datatype Origin = Origin(produceIdx: nat, consumeIdx: nat, blank: Frame)

  /** The first index is used as it is, also when it lies behind the limit; every further one is on the ring. */
  function Place(first: nat, i: nat, k: nat): nat
    requires k > 0
  {
    if i == 0 then first else (first + i) % k
  }

  predicate Congruent(o: Origin, k: nat)
    requires k > 0
  {
    o.produceIdx % k == o.consumeIdx % k
  }

  lemma PlaceStep(first: nat, i: nat, k: nat)
    requires 1 <= k <= SURFACES && first < SURFACES
    ensures (Place(first, i, k) + 1) % k == Place(first, i + 1, k) && Place(first, i, k) < SURFACES
    ensures i > 0 ==> Place(first, i, k) < k
  {
    if k == 1 {} else if k == 2 {} else if k == 3 {} else {}
  }

  /** Positions less than a round apart lie on different surfaces. */
  lemma PlacesDiffer(first: nat, a: nat, b: nat, k: nat)
    requires 1 <= k <= SURFACES && first < SURFACES && a < b < a + k
    ensures Place(first, a, k) != Place(first, b, k)
  {
    if k == 1 {} else if k == 2 {} else if k == 3 {} else {}
  }

  lemma RestTwice(x: nat, n: nat, k: nat)
    requires 1 <= k <= SURFACES
    ensures (x % k + n) % k == (x + n) % k
  {
    if k == 1 {} else if k == 2 {} else if k == 3 {} else {}
  }

  lemma SumRest(x: nat, i: nat, k: nat)
    requires 1 <= k <= SURFACES
    ensures (x + i) % k == (x % k + i % k) % k
  {
    RestTwice(x, i, k);
    RestTwice(i, x % k, k);
  }

  lemma SameRest(a: nat, b: nat, i: nat, k: nat)
    requires 1 <= k <= SURFACES && a < k && b < k && i < k
    ensures (a + i) % k == (b + i) % k <==> a == b
  {
    if k == 1 {} else if k == 2 {} else if k == 3 {} else {}
  }

  /** From the second one on submissions and fetches are in the same places exactly when the origins are congruent. */
  lemma PlacesMeet(o: Origin, i: nat, k: nat)
    requires 1 <= k <= SURFACES && i > 0
    ensures Place(o.produceIdx, i, k) == Place(o.consumeIdx, i, k) <==> Congruent(o, k)
  {
    SumRest(o.produceIdx, i, k);
    SumRest(o.consumeIdx, i, k);
    SameRest(o.produceIdx % k, o.consumeIdx % k, i % k, k);
  }

  // ---- What every interleaving keeps ----

  function Held(b: bool): nat {
    if b then 1 else 0
  }

  /** Surfaces given back so far. */
  function Returned(s: State): int {
    s.fetched - Held(s.consumer.Showing?)
  }

  predicate OriginFits(s: State, o: Origin) {
    1 <= s.ring.limit <= SURFACES == |s.surfaces| && o.produceIdx < SURFACES && o.consumeIdx < SURFACES
  }

  /** The counts of the semaphores, with `extra` free surfaces too many. */
  predicate Counts(s: State, o: Origin, extra: nat) {
    var r := s.ring;
    && OriginFits(s, o)
    && r.produceIdx == Place(o.produceIdx, |s.submitted|, r.limit)
    && r.consumeIdx == Place(o.consumeIdx, s.fetched, r.limit)
    && r.produceSema == r.limit - (|s.submitted| + Held(s.producer == Drawing)) + Returned(s) + extra
    && r.consumeSema
      == |s.submitted| - Held(s.producer == Advanced) - s.fetched - Held(s.consumer.Woken? || s.consumer.Indexed?)
    && 0 <= Returned(s)
    && (s.consumer.Indexed? ==> s.consumer.at == Place(o.consumeIdx, s.fetched, r.limit))
    && (s.consumer.Showing? ==> s.consumer.index == Place(o.consumeIdx, s.fetched - 1, r.limit))
  }

  /** Every submitted surface that is not given back still shows the frame it was submitted with; and nobody draws
      where the first fetch looks, when that is not where the first submission is. */
  predicate Intact(s: State, o: Origin)
    requires s.ring.limit > 0
  {
    && (forall i: nat :: Returned(s) <= i < |s.submitted| ==>
          Place(o.produceIdx, i, s.ring.limit) < |s.surfaces|
          && s.surfaces[Place(o.produceIdx, i, s.ring.limit)] == s.submitted[i])
    && (Congruent(o, s.ring.limit) && o.produceIdx != o.consumeIdx && Returned(s) == 0 ==>
          o.consumeIdx < |s.surfaces| && s.surfaces[o.consumeIdx] == o.blank)
  }

  /** What a look in the j-th fetch shows: the j-th frame, but for the first fetch from another surface than the first
      submission's. */
  function Shown(s: State, o: Origin, j: nat): Frame
    requires j < |s.submitted|
  {
    if j > 0 || o.produceIdx == o.consumeIdx then s.submitted[j] else o.blank
  }

  /** Looks belong to fetches of submitted frames, in order. */
  predicate InOrder(s: State) {
    && (forall k :: 0 <= k < |s.seen| ==> s.seen[k].0 < s.fetched && s.seen[k].0 < |s.submitted|)
    && (forall k, l :: 0 <= k < l < |s.seen| ==> s.seen[k].0 <= s.seen[l].0)
  }

  predicate SeenRight(s: State, o: Origin)
    requires InOrder(s)
  {
    forall k :: 0 <= k < |s.seen| ==> s.seen[k].1 == Shown(s, o, s.seen[k].0)
  }

  predicate Good(s: State, o: Origin) {
    && Counts(s, o, 0) && Intact(s, o) && InRange(s) && InOrder(s)
    && (Congruent(o, s.ring.limit) ==> SeenRight(s, o))
  }

  /** The semaphores as they are created: all surfaces free, none submitted. The indices may be any two. */
  predicate Start(s: State) {
    && 1 <= s.ring.limit <= SURFACES == |s.surfaces|
    && s.ring == Ring(s.ring.limit, s.ring.limit, 0, s.ring.produceIdx, s.ring.consumeIdx)
    && s.ring.produceIdx < SURFACES && s.ring.consumeIdx < SURFACES
    && s.producer == ProducerIdle && s.consumer == ConsumerIdle
    && s.submitted == [] && s.fetched == 0 && s.seen == []
  }

  function OriginOf(s: State): Origin
    requires s.ring.consumeIdx < |s.surfaces|
  {
    Origin(s.ring.produceIdx, s.ring.consumeIdx, s.surfaces[s.ring.consumeIdx])
  }

  lemma StartGood(s: State)
    requires Start(s)
    ensures Good(s, OriginOf(s))
  {}

  lemma CountsStep(s: State, o: Origin, step: Step)
    requires Good(s, o) && Enabled(s, step)
    ensures Counts(Next(s, step), o, 0)
  {
    PlaceStep(o.produceIdx, |s.submitted|, s.ring.limit);
    PlaceStep(o.consumeIdx, s.fetched, s.ring.limit);
    hide Place, Intact, InOrder, SeenRight;
  }

  lemma IntactStep(s: State, o: Origin, step: Step)
    requires Good(s, o) && Enabled(s, step) && Counts(Next(s, step), o, 0)
    ensures Intact(Next(s, step), o)
  {
    var n, k := Next(s, step), s.ring.limit;
    hide InOrder, SeenRight, Place, Congruent;
    forall i: nat | Returned(n) <= i < |n.submitted|
      ensures Place(o.produceIdx, i, k) < |n.surfaces| && n.surfaces[Place(o.produceIdx, i, k)] == n.submitted[i]
    {
      PlaceStep(o.produceIdx, i, k);
      if step.Draw? {
        PlacesDiffer(o.produceIdx, i, |s.submitted|, k);
      }
    }
    if step.Draw? && Congruent(o, k) && o.produceIdx != o.consumeIdx && Returned(s) == 0 {
      OffFirst(o, |s.submitted|, k);
    }
  }

  /** In the first round the game does not draw where the first fetch looks. */
  lemma OffFirst(o: Origin, i: nat, k: nat)
    requires 1 <= k <= SURFACES && o.consumeIdx < SURFACES && o.produceIdx != o.consumeIdx && Congruent(o, k) && i < k
    ensures Place(o.produceIdx, i, k) != o.consumeIdx
  {
    if i > 0 {
      PlacesMeet(o, i, k);
      PlacesDiffer(o.consumeIdx, 0, i, k);
    }
  }

  lemma InRangeStep(s: State, o: Origin)
    requires Counts(s, o, 0)
    ensures InRange(s)
  {
    PlaceStep(o.produceIdx, |s.submitted|, s.ring.limit);
    if s.consumer.Showing? {
      PlaceStep(o.consumeIdx, s.fetched - 1, s.ring.limit);
    }
  }

  /** What is looked at is the frame of the fetch, or what was there before the first submission. */
  lemma LookShows(s: State, o: Origin)
    requires Good(s, o) && s.consumer.Showing? && Congruent(o, s.ring.limit)
    ensures s.fetched - 1 < |s.submitted| && s.surfaces[s.consumer.index] == Shown(s, o, s.fetched - 1)
  {
    var j := s.fetched - 1;
    assert Returned(s) <= j < |s.submitted|;
    if j > 0 {
      PlacesMeet(o, j, s.ring.limit);
    }
  }

  /** Every step of either thread keeps the ring in order, whatever the indices were at the start. */
  lemma GoodStep(s: State, o: Origin, step: Step)
    requires Good(s, o) && Enabled(s, step)
    ensures Good(Next(s, step), o)
  {
    var n := Next(s, step);
    CountsStep(s, o, step);
    IntactStep(s, o, step);
    InRangeStep(n, o);
    if step.Look? && Congruent(o, s.ring.limit) {
      LookShows(s, o);
    }
    hide Counts, Intact, Congruent;
    SeenStep(s, o, step);
  }

  lemma SeenStep(s: State, o: Origin, step: Step)
    requires Good(s, o) && Enabled(s, step)
    requires step.Look? && Congruent(o, s.ring.limit) ==>
      s.fetched - 1 < |s.submitted| && s.surfaces[s.consumer.index] == Shown(s, o, s.fetched - 1)
    ensures var n := Next(s, step); InOrder(n) && (Congruent(o, s.ring.limit) ==> SeenRight(n, o))
  {
    hide Intact, Place, Congruent;
    var n := Next(s, step);
    assert s.submitted <= n.submitted;
    if step.Look? {
      assert Returned(s) < |s.submitted|;
    }
  }

  lemma {:induction false} RunGood(s: State, o: Origin, steps: seq<Step>)
    requires Good(s, o) && AllEnabled(s, steps)
    ensures Good(Run(s, steps), o) && Run(s, steps).ring.limit == s.ring.limit
    decreases |steps|
  {
    if steps == [] {
    } else {
      GoodStep(s, o, steps[0]);
      assert Next(s, steps[0]).ring.limit == s.ring.limit;
      hide Good, Next, Enabled;
      RunGood(Next(s, steps[0]), o, steps[1..]);
    }
  }

  /** The game draws on the surface that is being shown. */
  predicate Sharing(s: State) {
    s.producer == Drawing && s.consumer.Showing? && s.ring.produceIdx == s.consumer.index
  }

  lemma GoodDoesNotShare(s: State, o: Origin)
    requires Good(s, o) && Congruent(o, s.ring.limit) && s.producer == Drawing
    ensures s.consumer.Showing? ==> s.ring.produceIdx != s.consumer.index
    ensures s.consumer.Indexed? ==> s.ring.produceIdx != s.consumer.at
  {
    if s.consumer.Showing? || s.consumer.Indexed? {
      var j := Returned(s);
      PlacesMeet(o, |s.submitted|, s.ring.limit);
      PlacesDiffer(o.consumeIdx, j, |s.submitted|, s.ring.limit);
    }
  }

  /** In every interleaving, whatever the indices start with: no release is lost at a full semaphore, and the counts
      and the held surfaces add up to the limit. When the indices are congruent the two threads never hold one
      surface, and what is seen is what was submitted, in order; but the first fetch shows what was on its surface
      before, unless the indices are equal. */
  lemma SurfacesAreExclusive(s: State, steps: seq<Step>)
    requires Start(s) && AllEnabled(s, steps)
    ensures var r, o := Run(s, steps), OriginOf(s);
      && (r.producer == Advanced ==> r.ring.consumeSema < r.ring.limit)
      && (r.consumer.Showing? ==> r.ring.produceSema < r.ring.limit)
      && r.ring.produceSema + r.ring.consumeSema + Held(r.producer != ProducerIdle) + Held(r.consumer != ConsumerIdle)
        == r.ring.limit
      && (forall k :: 0 <= k < |r.seen| ==> r.seen[k].0 < |r.submitted|)
      && (forall k, l :: 0 <= k < l < |r.seen| ==> r.seen[k].0 <= r.seen[l].0)
    ensures var r := Run(s, steps);
      Congruent(OriginOf(s), s.ring.limit) && r.producer == Drawing ==>
        (r.consumer.Showing? ==> r.ring.produceIdx != r.consumer.index)
        && (r.consumer.Indexed? ==> r.ring.produceIdx != r.consumer.at)
    ensures var r, o := Run(s, steps), OriginOf(s);
      Congruent(o, s.ring.limit) ==> forall k :: 0 <= k < |r.seen| ==>
        r.seen[k].1 == if r.seen[k].0 > 0 || o.produceIdx == o.consumeIdx then r.submitted[r.seen[k].0] else o.blank
  {
    var r, o := Run(s, steps), OriginOf(s);
    StartGood(s);
    RunGood(s, o, steps);
    hide Run, AllEnabled, Place;
    if r.producer == Drawing && Congruent(o, s.ring.limit) {
      GoodDoesNotShare(r, o);
    }
  }

  /** What each thread does next if it can. */
  function ProducerNext(p: Producer): Step {
    match p case ProducerIdle => TakeFree case Drawing => MoveProduce case Advanced => Submit
  }

  function ConsumerNext(c: Consumer): Step {
    match c
    case ConsumerIdle => TakeSubmitted
    case Woken => ReadIndex
    case Indexed(_) => MoveConsume
    case Showing(_) => GiveBack
  }

  /** The threads never block each other: one of them can always move on. */
  lemma NeverStuck(s: State, steps: seq<Step>)
    requires Start(s) && AllEnabled(s, steps)
    ensures var r := Run(s, steps); Enabled(r, ProducerNext(r.producer)) || Enabled(r, ConsumerNext(r.consumer))
  {
    StartGood(s);
    RunGood(s, OriginOf(s), steps);
    hide Run, AllEnabled, InOrder, Intact, Place;
  }

  // ---- Which indices keep the two sides apart ----

  ghost predicate CanShare(s: State) {
    exists steps :: AllEnabled(s, steps) && Sharing(Run(s, steps))
  }

  lemma CanShareNow(s: State)
    requires Sharing(s)
    ensures CanShare(s)
  {
    assert AllEnabled(s, []) && Run(s, []) == s;
  }

  lemma CanShareStep(s: State, step: Step)
    requires InRange(s) && Enabled(s, step) && CanShare(Next(s, step))
    ensures CanShare(s)
  {
    var rest :| AllEnabled(Next(s, step), rest) && Sharing(Run(Next(s, step), rest));
    var steps := [step] + rest;
    assert steps[0] == step && steps[1..] == rest;
    assert AllEnabled(s, steps) && Run(s, steps) == Run(Next(s, step), rest);
  }

  /** From congruent indices a state in order never leads to sharing. */
  lemma GoodNeverShares(s: State, o: Origin, steps: seq<Step>)
    requires Good(s, o) && Congruent(o, s.ring.limit) && AllEnabled(s, steps)
    ensures !Sharing(Run(s, steps))
  {
    RunGood(s, o, steps);
    if Run(s, steps).producer == Drawing {
      GoodDoesNotShare(Run(s, steps), o);
    }
  }

  /** How many submissions ahead of the surface that is shown the game draws on it. */
  function Gap(o: Origin, k: nat): nat
    requires k > 0
  {
    if Congruent(o, k) then k else (o.consumeIdx % k + k - o.produceIdx % k) % k
  }

  lemma GapMeets(o: Origin, i: nat, k: nat)
    requires 1 <= k <= SURFACES && (i > 0 || o.consumeIdx < k)
    ensures 1 <= Gap(o, k) <= k && (Gap(o, k) == k <==> Congruent(o, k))
    ensures (o.produceIdx + i + Gap(o, k)) % k == Place(o.consumeIdx, i, k)
  {
    var a, b, g := o.produceIdx % k, o.consumeIdx % k, Gap(o, k);
    GapValue(o, k);
    RestTwice(o.produceIdx, i + g, k);
    RestTwice(o.consumeIdx, i, k);
    Round(b + i, k);
    if i == 0 {
      Round(o.consumeIdx, k);
    }
  }

  lemma GapValue(o: Origin, k: nat)
    requires 1 <= k <= SURFACES
    ensures var a, b, g := o.produceIdx % k, o.consumeIdx % k, Gap(o, k);
      1 <= g <= k && (g == k <==> a == b) && a + g == if a < b then b else b + k
  {
    var a, b := o.produceIdx % k, o.consumeIdx % k;
    Round(b, k);
    if a < b {
      Round(b - a, k);
    } else if b < a {
      Round(b + k - a, k);
    }
  }

  lemma Round(x: nat, k: nat)
    requires 1 <= k <= SURFACES
    ensures (x + k) % k == x % k < k && (x < k ==> x % k == x)
  {
    if k == 1 {} else if k == 2 {} else if k == 3 {} else {}
  }

  /** While a surface is shown the game goes on along the ring and draws on it. */
  lemma {:induction false} LapShares(s: State, n: nat)
    requires InRange(s) && 1 <= s.ring.limit <= SURFACES == |s.surfaces| && s.ring.produceIdx < s.ring.limit
    requires s.producer == ProducerIdle && s.consumer.Showing? && 1 <= n <= s.ring.produceSema
    requires (s.ring.produceIdx + n - 1) % s.ring.limit == s.consumer.index
    ensures CanShare(s)
    decreases n
  {
    var drawing := Next(s, TakeFree);
    if n == 1 {
      RestTwice(s.ring.produceIdx, 0, s.ring.limit);
      assert s.ring.produceIdx % s.ring.limit == s.ring.produceIdx;
      CanShareNow(drawing);
    } else {
      var moved := Next(drawing, MoveProduce);
      var back := Next(moved, Submit);
      RestTwice(s.ring.produceIdx + 1, n - 2, s.ring.limit);
      LapShares(back, n - 1);
      CanShareStep(moved, Submit);
      CanShareStep(drawing, MoveProduce);
    }
    CanShareStep(s, TakeFree);
  }

  /** One surface is shown and one more frame at most is ahead of it. */
  lemma NextToShares(s: State, o: Origin, extra: nat)
    requires Counts(s, o, extra) && Gap(o, s.ring.limit) < s.ring.limit + extra
    requires s.producer == ProducerIdle && s.consumer.Showing? && |s.submitted| == s.fetched
    requires s.fetched > 1 || o.consumeIdx < s.ring.limit
    ensures CanShare(s)
  {
    var k, i := s.ring.limit, s.fetched - 1;
    var g := Gap(o, k);
    GapMeets(o, i, k);
    InRangeCounted(s, o, extra);
    PlaceStep(o.produceIdx, s.fetched, k);
    assert s.ring.produceIdx == (o.produceIdx + s.fetched) % k;
    RestTwice(o.produceIdx + s.fetched, g - 1, k);
    LapShares(s, g);
  }

  lemma InRangeCounted(s: State, o: Origin, extra: nat)
    requires Counts(s, o, extra)
    ensures InRange(s)
  {
    PlaceStep(o.produceIdx, |s.submitted|, s.ring.limit);
    if s.consumer.Showing? {
      PlaceStep(o.consumeIdx, s.fetched - 1, s.ring.limit);
    }
  }

  /** A step that neither side's semaphore refuses keeps the counts, whatever the excess. */
  lemma CountedStep(s: State, o: Origin, extra: nat, step: Step)
    requires Counts(s, o, extra) && Enabled(s, step) && !step.Draw? && !step.Look?
    requires step.Submit? ==> s.ring.consumeSema < s.ring.limit
    requires step.GiveBack? ==> s.ring.produceSema < s.ring.limit
    ensures InRange(s) && Counts(Next(s, step), o, extra)
  {
    InRangeCounted(s, o, extra);
    PlaceStep(o.produceIdx, |s.submitted|, s.ring.limit);
    PlaceStep(o.consumeIdx, s.fetched, s.ring.limit);
    hide Place;
  }

  /** What remains until one surface is shown and nothing else is under way. */
  function ConsumerRank(s: State): nat {
    match s.consumer
    case Showing(_) => 0
    case Indexed(_) => 1
    case Woken => 2
    case ConsumerIdle => if s.ring.consumeSema > 0 then 3 else 4
  }

  function ProducerRank(p: Producer): nat {
    match p case ProducerIdle => 0 case Advanced => 1 case Drawing => 2
  }

  function Ahead(s: State): nat {
    var n := |s.submitted| - Returned(s);
    if n <= 1 then 1 else n
  }

  /** With the gap within reach the game finishes what it draws, the frames ahead are shown and given back, all but
      one, and the game goes on to the surface that is shown. */
  lemma {:induction false} GapShares(s: State, o: Origin, extra: nat)
    requires Counts(s, o, extra) && extra <= 1 && extra <= s.ring.produceSema <= s.ring.limit
    requires Gap(o, s.ring.limit) < s.ring.limit + extra
    ensures CanShare(s)
    decreases if Returned(s) == 0 then 1 else 0, ProducerRank(s.producer), Ahead(s), ConsumerRank(s)
  {
    hide Place, Gap;
    GapMeets(o, 1, s.ring.limit);
    InRangeCounted(s, o, extra);
    if s.producer != ProducerIdle {
      CountedStep(s, o, extra, ProducerNext(s.producer));
      GapShares(Next(s, ProducerNext(s.producer)), o, extra);
      CanShareStep(s, ProducerNext(s.producer));
    } else if s.consumer.Showing? && |s.submitted| == s.fetched {
      if s.fetched == 1 && o.consumeIdx >= s.ring.limit {
        var r := OneMore(s, o, extra);
        CountedStep(r, o, extra, GiveBack);
        GapShares(Next(r, GiveBack), o, extra);
        CanShareStep(r, GiveBack);
      } else {
        NextToShares(s, o, extra);
      }
    } else if s.consumer == ConsumerIdle && s.ring.consumeSema == 0 {
      var r := OneMore(s, o, extra);
      GapShares(r, o, extra);
    } else {
      var step := ConsumerNext(s.consumer);
      CountedStep(s, o, extra, step);
      GapShares(Next(s, step), o, extra);
      CanShareStep(s, step);
    }
  }

  /** The game submits another frame. */
  lemma OneMore(s: State, o: Origin, extra: nat) returns (r: State)
    requires Counts(s, o, extra) && s.producer == ProducerIdle
    requires s.ring.produceSema > 0 && s.ring.consumeSema < s.ring.limit
    ensures Counts(r, o, extra) && r.producer == ProducerIdle && (CanShare(r) ==> CanShare(s))
    ensures |r.submitted| == |s.submitted| + 1 && r.consumer == s.consumer && r.fetched == s.fetched
    ensures r.ring.limit == s.ring.limit && r.ring.produceSema == s.ring.produceSema - 1
  {
    var drawing := Next(s, TakeFree);
    CountedStep(s, o, extra, TakeFree);
    var moved := Next(drawing, MoveProduce);
    CountedStep(drawing, o, extra, MoveProduce);
    CountedStep(moved, o, extra, Submit);
    r := Next(moved, Submit);
    hide Counts, CanShare;
    if CanShare(r) {
      CanShareStep(moved, Submit);
      CanShareStep(drawing, MoveProduce);
      CanShareStep(s, TakeFree);
    }
  }

  /** From every state that the ring can be in: the game can come to draw on the surface that is being shown exactly
      when the indices did not start congruent. */
  lemma SharesExactly(s: State, o: Origin)
    requires Good(s, o)
    ensures CanShare(s) <==> !Congruent(o, s.ring.limit)
  {
    GapMeets(o, 1, s.ring.limit);
    if Congruent(o, s.ring.limit) {
      forall steps | AllEnabled(s, steps) ensures !Sharing(Run(s, steps)) {
        GoodNeverShares(s, o, steps);
      }
    } else {
      GapShares(s, o, 0);
    }
  }

  ghost predicate NeverShares(s: State) {
    forall steps :: AllEnabled(s, steps) ==> !Sharing(Run(s, steps))
  }

  /** No interleaving lets both sides hold one surface if and only if the indices start congruent. */
  lemma ExclusiveExactly(s: State)
    requires Start(s)
    ensures NeverShares(s) <==> s.ring.produceIdx % s.ring.limit == s.ring.consumeIdx % s.ring.limit
  {
    var o := OriginOf(s);
    StartGood(s);
    SharesExactly(s, o);
    if Congruent(o, s.ring.limit) {
      forall steps | AllEnabled(s, steps) ensures !Sharing(Run(s, steps)) {
        GoodNeverShares(s, o, steps);
      }
    } else {
      var sharing :| AllEnabled(s, sharing) && Sharing(Run(s, sharing));
      assert !NeverShares(s);
    }
  }

  // ---- Which indices show every frame that was submitted ----

  /** All looks showed the frame of their fetch. */
  predicate SeenAsSubmitted(s: State) {
    forall k :: 0 <= k < |s.seen| ==> s.seen[k].0 < |s.submitted| && s.seen[k].1 == s.submitted[s.seen[k].0]
  }

  /** The game draws and submits its first frame, which is fetched and looked at. */
  function FirstFrame(f: Frame): seq<Step> {
    [TakeFree, Draw(f), MoveProduce, Submit, TakeSubmitted, ReadIndex, MoveConsume, Look]
  }

  lemma FirstFrameSeen(s: State, f: Frame)
    requires Start(s)
    ensures AllEnabled(s, FirstFrame(f))
    ensures var r := Run(s, FirstFrame(f));
      && r.submitted == [f]
      && r.seen == [(0, if s.ring.produceIdx == s.ring.consumeIdx then f else s.surfaces[s.ring.consumeIdx])]
      && r.surfaces == s.surfaces[s.ring.produceIdx := f]
  {
    var s1 := Next(s, TakeFree);
    var s2 := Next(s1, Draw(f));
    var s3 := Next(s2, MoveProduce);
    var s4 := Next(s3, Submit);
    PlaceStep(s.ring.produceIdx, 0, s.ring.limit);
    FirstFetched(s4);
    hide Run, AllEnabled;
    RunFirst(s3, Submit, [TakeSubmitted, ReadIndex, MoveConsume, Look]);
    RunFirst(s2, MoveProduce, [Submit, TakeSubmitted, ReadIndex, MoveConsume, Look]);
    RunFirst(s1, Draw(f), [MoveProduce, Submit, TakeSubmitted, ReadIndex, MoveConsume, Look]);
    RunFirst(s, TakeFree, [Draw(f), MoveProduce, Submit, TakeSubmitted, ReadIndex, MoveConsume, Look]);
  }

  lemma FirstFetched(s: State)
    requires InRange(s) && s.consumer == ConsumerIdle && s.ring.consumeSema > 0 && s.fetched == 0 && s.seen == []
    requires s.ring.consumeIdx < |s.surfaces|
    ensures var steps := [TakeSubmitted, ReadIndex, MoveConsume, Look];
      AllEnabled(s, steps) && Run(s, steps).submitted == s.submitted && Run(s, steps).surfaces == s.surfaces
      && Run(s, steps).seen == [(0, s.surfaces[s.ring.consumeIdx])]
  {
    var s1 := Next(s, TakeSubmitted);
    var s2 := Next(s1, ReadIndex);
    var s3 := Next(s2, MoveConsume);
    RunNone(Next(s3, Look));
    hide Run, AllEnabled;
    RunFirst(s3, Look, []);
    RunFirst(s2, MoveConsume, [Look]);
    RunFirst(s1, ReadIndex, [MoveConsume, Look]);
    RunFirst(s, TakeSubmitted, [ReadIndex, MoveConsume, Look]);
  }

  lemma RunNone(s: State)
    ensures AllEnabled(s, []) && Run(s, []) == s
  {}

  lemma RunFirst(s: State, step: Step, rest: seq<Step>)
    requires InRange(s) && Enabled(s, step) && AllEnabled(Next(s, step), rest)
    ensures AllEnabled(s, [step] + rest) && Run(s, [step] + rest) == Run(Next(s, step), rest)
  {
    assert ([step] + rest)[1..] == rest;
  }

  /** Every look of every run shows the frame of its fetch if and only if the indices start equal. */
  lemma SeenExactly(s: State)
    requires Start(s)
    ensures (forall steps :: AllEnabled(s, steps) ==> SeenAsSubmitted(Run(s, steps)))
       <==> s.ring.produceIdx == s.ring.consumeIdx
  {
    if s.ring.produceIdx == s.ring.consumeIdx {
      forall steps | AllEnabled(s, steps) ensures SeenAsSubmitted(Run(s, steps)) {
        SurfacesAreExclusive(s, steps);
      }
    } else {
      var f := s.surfaces[s.ring.consumeIdx] + 1;
      FirstFrameSeen(s, f);
      var r := Run(s, FirstFrame(f));
      assert r.seen[0].1 != r.submitted[0];
    }
  }

  /** The ring as the launcher creates it: one surface, and the game starts behind it. */
  function LauncherStart(surfaces: seq<Frame>): State {
    State(Ring(1, 1, 0, 1, 0), surfaces, ProducerIdle, ConsumerIdle, [], 0, [])
  }

  /** Every look but those of the first fetch showed the frame of its fetch. */
  predicate LaterSeenAsSubmitted(s: State) {
    forall k :: 0 <= k < |s.seen| && s.seen[k].0 > 0 ==>
      s.seen[k].0 < |s.submitted| && s.seen[k].1 == s.submitted[s.seen[k].0]
  }

  /** The first frame goes to a surface that nobody looks at, and the first look shows what was on the other one; the
      two sides never hold one surface, and every later fetch shows its frame. */
  lemma LauncherMissesFirstFrame(surfaces: seq<Frame>, f: Frame)
    requires |surfaces| == SURFACES
    ensures var s := LauncherStart(surfaces);
      && Start(s) && AllEnabled(s, FirstFrame(f))
      && Run(s, FirstFrame(f)).submitted == [f] && Run(s, FirstFrame(f)).seen == [(0, surfaces[0])]
      && Run(s, FirstFrame(f)).surfaces == surfaces[1 := f]
    ensures forall steps :: AllEnabled(LauncherStart(surfaces), steps) ==>
      !Sharing(Run(LauncherStart(surfaces), steps)) && LaterSeenAsSubmitted(Run(LauncherStart(surfaces), steps))
  {
    var s := LauncherStart(surfaces);
    FirstFrameSeen(s, f);
    forall steps | AllEnabled(s, steps) ensures !Sharing(Run(s, steps)) && LaterSeenAsSubmitted(Run(s, steps)) {
      SurfacesAreExclusive(s, steps);
    }
  }

  // ---- Giving back a surface that was not fetched ----

  /** The launcher window gives a surface back after every frame, also when its fetch timed out. */
  function StrayRelease(s: State): State {
    s.(ring := SignalProduce(s.ring))
  }

  /** After giving back a surface that was not fetched, the game can come to draw on the surface that is being shown
      exactly when the semaphore did not refuse, that is unless every surface was free, or when the indices let it
      anyway. */
  lemma StrayReleaseExactly(s: State, o: Origin)
    requires Good(s, o)
    ensures CanShare(StrayRelease(s)) <==> s.ring.produceSema < s.ring.limit || !Congruent(o, s.ring.limit)
  {
    var r := StrayRelease(s);
    GapMeets(o, 1, s.ring.limit);
    if s.ring.produceSema < s.ring.limit {
      GapShares(r, o, 1);
    } else {
      assert r == s;
      SharesExactly(s, o);
    }
  }

  /** With one surface: a stray release while the game draws lets both sides hold that surface, if it is the one that
      is fetched first, as in the launcher. */
  lemma StrayReleaseShares(s: State)
    requires Start(s) && s.ring.limit == 1
    ensures Good(s, OriginOf(s))
    ensures var drawing := Next(s, TakeFree);
      var submitted := Next(Next(StrayRelease(drawing), MoveProduce), Submit);
      var showing := Next(Next(Next(submitted, TakeSubmitted), ReadIndex), MoveConsume);
      var r := Next(showing, TakeFree);
      && r.producer == Drawing && r.consumer == Showing(s.ring.consumeIdx)
      && (Sharing(r) <==> s.ring.consumeIdx == 0)
  {
    StartGood(s);
  }

  // ---- The methods ----

  class ReverseGameData {
    var produceSema: nat
    var consumeSema: nat
    var surfaceLimit: nat
    var produceIdx: nat
    var consumeIdx: nat

    function View(): Ring
      reads this
    {
      Ring(surfaceLimit, produceSema, consumeSema, produceIdx, consumeIdx)
    }

    /** -1 when the wait times out. */
    method GetNextSurface() returns (index: int)
      modifies this
      ensures old(produceSema) == 0 ==> index == -1 && View() == old(View())
      ensures old(produceSema) > 0 ==>
        index == produceIdx && View() == old(View()).(produceSema := old(produceSema) - 1)
    {
      if produceSema == 0 {
        return -1;
      }
      produceSema := produceSema - 1;
      index := produceIdx;
    }

    /** False when the semaphore is already at its maximum. */
    method SubmitSurface() returns (released: bool)
      requires surfaceLimit > 0
      modifies this
      ensures View() == SignalConsume(AdvanceProduce(old(View()))) && (released <==> old(consumeSema) < surfaceLimit)
    {
      produceIdx := (produceIdx + 1) % surfaceLimit;
      released := consumeSema < surfaceLimit;
      if released {
        consumeSema := consumeSema + 1;
      }
    }

    method FetchSurfaceIdx() returns (index: nat)
      requires surfaceLimit > 0
      modifies this
      ensures index == old(consumeIdx) && View() == AdvanceConsume(old(View()))
    {
      index := consumeIdx;
      consumeIdx := (consumeIdx + 1) % surfaceLimit;
    }

    /** -1 when the wait times out. */
    method FetchSurface() returns (index: int)
      requires surfaceLimit > 0
      modifies this
      ensures old(consumeSema) == 0 ==> index == -1 && View() == old(View())
      ensures old(consumeSema) > 0 ==>
        index == old(consumeIdx) && View() == AdvanceConsume(old(View()).(consumeSema := old(consumeSema) - 1))
    {
      if consumeSema == 0 {
        return -1;
      }
      consumeSema := consumeSema - 1;
      index := FetchSurfaceIdx();
    }

    method ReleaseSurface()
      modifies this
      ensures View() == SignalProduce(old(View()))
    {
      if produceSema < surfaceLimit {
        produceSema := produceSema + 1;
      }
    }
  }
}
