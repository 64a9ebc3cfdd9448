/** Calls of CL_QueueDownload and DL_Process: every series of them is a run of steps, so that what holds of runs holds
    of the calls, and calls in which nothing fails lead to a reported end with all downloads complete. */
module DownloadCalls {
  import opened Download
  import opened LittleEndian

  /** What the caller does: queue a download, or call DL_Process while the transfers do what `opens` and `events`
      say. */
  datatype Call = Enqueueing(size: int, remote: seq<byte>) | Processing(opens: seq<bool>, events: seq<Step>)

  predicate Fits(s: Dls, call: Call) {
    call.Processing? ==> Scripted(s, call.opens, call.events)
  }

  /** The state after a call, and whether it reports the end. */
  function Perform(s: Dls, call: Call): (Dls, bool)
    requires Fits(s, call)
  {
    match call
    case Enqueueing(size, remote) => (Queue(s, size, remote), false)
    case Processing(opens, events) => Tick(s, opens, events)
  }

  predicate AllFit(s: Dls, calls: seq<Call>)
    decreases |calls|
  {
    calls == [] || (Fits(s, calls[0]) && AllFit(Perform(s, calls[0]).0, calls[1..]))
  }

  function After(s: Dls, calls: seq<Call>): Dls
    requires AllFit(s, calls)
    decreases |calls|
  {
    if calls == [] then s else After(Perform(s, calls[0]).0, calls[1..])
  }

  // ---- A call is a run ----

  predicate NoneQueued(steps: seq<Step>) {
    forall i :: 0 <= i < |steps| ==> !steps[i].Enqueue?
  }

  lemma {:induction false} RunTwice(s: Dls, a: seq<Step>, b: seq<Step>)
    requires AllEnabled(s, a) && AllEnabled(Run(s, a), b)
    ensures AllEnabled(s, a + b) && Run(s, a + b) == Run(Run(s, a), b)
    decreases |a|
  {
    if a == [] {
      assert a + b == b;
    } else {
      assert (a + b)[0] == a[0] && (a + b)[1..] == a[1..] + b;
      hide Next, Enabled;
      RunTwice(Next(s, a[0]), a[1..], b);
    }
  }

  /** Giving handles to the downloads without one. */
  lemma {:induction false} InitAllRuns(s: Dls, opens: seq<bool>, k: nat) returns (steps: seq<Step>)
    requires |opens| == |s.current|
    ensures AllEnabled(s, steps) && Run(s, steps) == InitAll(s, opens, k)
    ensures forall i :: 0 <= i < |steps| ==> steps[i].Start? && steps[i].canOpen in opens
    decreases |s.current| - k
  {
    if k >= |s.current| {
      steps := [];
    } else if s.current[k].handle == Unstarted {
      var rest := InitAllRuns(Init(s, k, opens[k]), opens, k + 1);
      RunFirst(s, Start(k, opens[k]), rest);
      steps := [Start(k, opens[k])] + rest;
    } else {
      steps := InitAllRuns(s, opens, k + 1);
    }
  }

  /** Handling the reported events, up to one that ends it all. */
  lemma {:induction false} EventsRun(s: Dls, events: seq<Step>) returns (steps: seq<Step>)
    requires Reported(s, events)
    ensures AllEnabled(s, steps) && Run(s, steps) == HandleEvents(s, events).0
    ensures steps <= events && NoneQueued(steps)
    decreases |events|
  {
    if events == [] {
      steps := [];
    } else {
      var n := Next(s, events[0]);
      var rest := [];
      if !IsFatal(s, events[0]) {
        rest := EventsRun(n, events[1..]);
      }
      RunFirst(s, events[0], rest);
      steps := [events[0]] + rest;
    }
  }

  /** The transfers of a call do not fail. */
  predicate SmoothCall(call: Call) {
    call.Processing? && (forall i :: 0 <= i < |call.opens| ==> call.opens[i])
      && forall i :: 0 <= i < |call.events| ==> Smooth(call.events[i])
  }

  predicate AllSmoothCalls(calls: seq<Call>) {
    forall i :: 0 <= i < |calls| ==> SmoothCall(calls[i])
  }

  predicate WholeCall(call: Call) {
    call.Processing? ==> WritesComplete(call.events)
  }

  /** What the steps of a call have in common with it. */
  ghost predicate RunsAs(s: Dls, call: Call, steps: seq<Step>)
    requires Fits(s, call)
  {
    && AllEnabled(s, steps) && Run(s, steps) == Perform(s, call).0
    && (call.Processing? ==> NoneQueued(steps))
    && (WholeCall(call) ==> WritesComplete(steps))
    && (SmoothCall(call) ==> AllSmooth(steps))
  }

  /** Every step gives a handle, is one of the events, or admits a download. */
  predicate MadeOf(steps: seq<Step>, opens: seq<bool>, events: seq<Step>) {
    forall i :: 0 <= i < |steps| ==>
      steps[i].Admit? || (steps[i].Start? && steps[i].canOpen in opens) || (!steps[i].Enqueue? && steps[i] in events)
  }

  lemma MadeOfMeans(steps: seq<Step>, opens: seq<bool>, events: seq<Step>)
    requires MadeOf(steps, opens, events)
    ensures NoneQueued(steps) && (WritesComplete(events) ==> WritesComplete(steps))
    ensures SmoothCall(Processing(opens, events)) ==> AllSmooth(steps)
  {
  }

  lemma HandlesRun(s: Dls, opens: seq<bool>, events: seq<Step>) returns (steps: seq<Step>)
    requires Scripted(s, opens, events)
    ensures AllEnabled(s, steps) && Run(s, steps) == HandleEvents(InitAll(s, opens, 0), events).0
    ensures MadeOf(steps, opens, events)
  {
    var a := InitAllRuns(s, opens, 0);
    hide Run, AllEnabled, Reported, HandleEvents, InitAll;
    var b := EventsRun(Run(s, a), events);
    RunTwice(s, a, b);
    steps := a + b;
  }

  lemma ThenAdmit(s: Dls, steps: seq<Step>) returns (more: seq<Step>)
    requires AllEnabled(s, steps) && Run(s, steps).queue != []
    ensures AllEnabled(s, more) && Run(s, more) == Dequeue(Run(s, steps)) && more == steps + [Admit]
  {
    var t := Run(s, steps);
    RunNone(Next(t, Admit));
    RunFirst(t, Admit, []);
    assert [Admit] + [] == [Admit];
    RunTwice(s, steps, [Admit]);
    more := steps + [Admit];
  }

  lemma TickRuns(s: Dls, opens: seq<bool>, events: seq<Step>) returns (steps: seq<Step>)
    requires Scripted(s, opens, events)
    ensures AllEnabled(s, steps) && Run(s, steps) == Tick(s, opens, events).0 && MadeOf(steps, opens, events)
  {
    RunNone(s);
    steps := [];
    if s.isDownloading {
      var t, ok := s, true;
      if s.current != [] {
        steps := HandlesRun(s, opens, events);
        t, ok := HandleEvents(InitAll(s, opens, 0), events).0, HandleEvents(InitAll(s, opens, 0), events).1;
      }
      hide Run, AllEnabled, HandleEvents, InitAll, Reported;
      if ok && t.queue != [] {
        steps := ThenAdmit(s, steps);
      }
    }
  }

  lemma CallRuns(s: Dls, call: Call) returns (steps: seq<Step>)
    requires Fits(s, call)
    ensures RunsAs(s, call, steps)
  {
    match call {
      case Enqueueing(size, remote) =>
        RunNone(Next(s, Enqueue(size, remote)));
        RunFirst(s, Enqueue(size, remote), []);
        steps := [Enqueue(size, remote)] + [];
      case Processing(opens, events) =>
        steps := TickRuns(s, opens, events);
        MadeOfMeans(steps, opens, events);
    }
  }

  /** Every series of calls is a run of steps; the writes of the run are those of the calls, and if nothing fails in
      the calls, nothing fails in the run. */
  lemma {:induction false} CallsAreRuns(s: Dls, calls: seq<Call>) returns (steps: seq<Step>)
    requires AllFit(s, calls)
    ensures AllEnabled(s, steps) && Run(s, steps) == After(s, calls)
    ensures (forall i :: 0 <= i < |calls| ==> WholeCall(calls[i])) ==> WritesComplete(steps)
    ensures AllSmoothCalls(calls) ==> AllSmooth(steps)
    decreases |calls|
  {
    if calls == [] {
      steps := [];
    } else {
      var a := CallRuns(s, calls[0]);
      var b := CallsAreRuns(Perform(s, calls[0]).0, calls[1..]);
      RunTwice(s, a, b);
      steps := a + b;
      assert forall i :: 0 <= i < |calls[1..]| ==> calls[1..][i] == calls[i + 1];
    }
  }

  /** So whatever is queued and however often DL_Process is called: the limits hold, the books are kept, and while all
      writes are complete every sink holds exactly what was sent. */
  lemma CallsKeepOrder(calls: seq<Call>)
    requires AllFit(EMPTY, calls)
    ensures Good(After(EMPTY, calls)) && BytesCounted(After(EMPTY, calls))
    ensures (forall i :: 0 <= i < |calls| ==> WholeCall(calls[i])) ==> AllWhole(After(EMPTY, calls))
  {
    var steps := CallsAreRuns(EMPTY, calls);
    assert Good(EMPTY) && BytesCounted(EMPTY);
    RunGood(EMPTY, steps);
    BytesAlwaysCounted(EMPTY, steps);
    SinksWholeExactly(steps);
  }

  // ---- Calls that complete everything ----

  /** The last of the calls reports the end. */
  predicate ReportsEnd(s: Dls, calls: seq<Call>)
    requires AllFit(s, calls)
    decreases |calls|
  {
    calls != [] && if |calls| == 1 then Perform(s, calls[0]).1 else ReportsEnd(Perform(s, calls[0]).0, calls[1..])
  }

  lemma {:induction false} AllActive(s: Dls, opens: seq<bool>, k: nat)
    requires |opens| == |s.current| && forall i :: 0 <= i < |opens| ==> opens[i]
    requires forall i :: 0 <= i < |s.current| ==> s.current[i].handle != Ended
    requires forall i :: 0 <= i < k && i < |s.current| ==> s.current[i].handle == Active
    ensures var r := InitAll(s, opens, k);
      && |r.current| == |s.current| && r.isDownloading == s.isDownloading
      && forall i :: 0 <= i < |r.current| ==> r.current[i].handle == Active
    decreases |s.current| - k
  {
    if k < |s.current| {
      if s.current[k].handle == Unstarted {
        AllActive(Init(s, k, opens[k]), opens, k + 1);
      } else {
        AllActive(s, opens, k + 1);
      }
    }
  }

  /** What one call without a failure achieves. */
  ghost predicate Advances(s: Dls, call: Call) {
    && Fits(s, call) && SmoothCall(call)
    && var (r, done) := Perform(s, call);
       && Good(r) && !r.error && r.isDownloading && (done <==> r.queue + r.current == [])
       && (s.queue + s.current != [] ==> Measure(r) < Measure(s))
  }

  lemma IdleAdvances(s: Dls)
    requires Good(s) && !s.error && s.isDownloading && s.current == []
    ensures Advances(s, Processing([], []))
  {
    if s.queue != [] {
      MeasureStep(s, Admit);
      NextGood(s, Admit);
    }
    hide Good, Measure;
  }

  /** One event that is not a failure. */
  lemma EventToCome(t: Dls) returns (event: Step)
    requires Good(t) && t.current != [] && t.current[0].handle == Active
    ensures Enabled(t, event) && Smooth(event) && !event.Admit? && !event.Start? && !IsFatal(t, event)
    ensures Good(Next(t, event)) && Measure(Next(t, event)) < Measure(t)
  {
    var d := t.current[0];
    assert ItemGood(d);
    event := if d.progress < |d.remote| then Receive(0, 1, 1) else Done(0, true);
    hide Good, Measure;
    NextGood(t, event);
    MeasureStep(t, event);
  }

  lemma TickOfOne(s: Dls, opens: seq<bool>, event: Step)
    requires |opens| == |s.current| && s.current != [] && s.isDownloading
    requires var t := InitAll(s, opens, 0); Enabled(t, event) && !IsFatal(t, event)
    requires event.Receive? || event.Done? || event.Broken?
    ensures Scripted(s, opens, [event])
    ensures var u := Next(InitAll(s, opens, 0), event);
      var r := if u.queue == [] then u else Dequeue(u);
      Tick(s, opens, [event]) == (r, r.queue == [] && r.current == [])
  {
    hide InitAll, Next, Enabled, IsFatal;
    var t := InitAll(s, opens, 0);
    assert [event][1..] == [] && Reported(Next(t, event), []);
    assert HandleEvents(t, [event]) == HandleEvents(Next(t, event), []);
  }

  lemma BusyAdvances(s: Dls) returns (call: Call)
    requires Good(s) && !s.error && s.isDownloading && s.current != []
    ensures Advances(s, call)
  {
    var opens := seq(|s.current|, i => true);
    AllActive(s, opens, 0);
    InitAllGood(s, opens, 0);
    StartsCost(s, opens);
    hide InitAll, Good, Measure;
    var t := InitAll(s, opens, 0);
    var event := EventToCome(t);
    TickOfOne(s, opens, event);
    SmoothStep(t, event);
    call := Processing(opens, [event]);
    hide Next, Tick, Scripted, Enabled, Advances, Smooth;
    AdmitAdvances(Next(t, event));
    EventAdvances(s, opens, event, Next(t, event));
  }

  lemma EventAdvances(s: Dls, opens: seq<bool>, event: Step, u: Dls)
    requires (forall i :: 0 <= i < |opens| ==> opens[i]) && Smooth(event) && Scripted(s, opens, [event])
    requires var r := if u.queue == [] then u else Dequeue(u);
      && Tick(s, opens, [event]) == (r, r.queue == [] && r.current == [])
      && Good(r) && !r.error && r.isDownloading && Measure(r) < Measure(s)
    ensures Advances(s, Processing(opens, [event]))
  {
    hide Good, Measure, Tick, Scripted, Dequeue;
  }

  lemma AdmitAdvances(u: Dls)
    requires Good(u) && !u.error && u.isDownloading
    ensures var r := if u.queue == [] then u else Dequeue(u);
      Good(r) && !r.error && r.isDownloading && Measure(r) <= Measure(u)
  {
    if u.queue != [] {
      NextGood(u, Admit);
      MeasureStep(u, Admit);
    }
    hide Good, Measure;
  }

  lemma StartsCost(s: Dls, opens: seq<bool>)
    requires |opens| == |s.current|
    ensures Measure(InitAll(s, opens, 0)) <= Measure(s)
  {
    var starts := InitAllRuns(s, opens, 0);
    BoundedWork(s, starts);
  }

  lemma {:induction false} CallsToEnd(s: Dls) returns (calls: seq<Call>)
    requires Good(s) && !s.error && s.isDownloading
    ensures AllFit(s, calls) && ReportsEnd(s, calls) && AllSmoothCalls(calls)
    ensures var r := After(s, calls); Good(r) && !r.error && r.isDownloading && r.queue + r.current == []
    decreases Measure(s)
  {
    var call := Processing([], []);
    if s.current == [] {
      IdleAdvances(s);
    } else {
      call := BusyAdvances(s);
    }
    var (r, done) := Perform(s, call);
    hide Good, Measure, Perform, SmoothCall, Fits;
    if done {
      calls := [call];
      assert [call][1..] == [];
    } else {
      var rest := CallsToEnd(r);
      calls := [call] + rest;
      assert calls[1..] == rest;
    }
  }

  /** As long as no error has ended it and the queue is marked as downloading, some calls of DL_Process in which nothing
      fails complete all downloads, and the last of them reports the end. */
  lemma CallsComplete(s: Dls)
    requires Good(s) && !s.error && s.isDownloading
    ensures exists calls :: AllFit(s, calls) && AllSmoothCalls(calls) && ReportsEnd(s, calls)
                         && Finished(s, After(s, calls))
  {
    var calls := CallsToEnd(s);
    var steps := CallsAreRuns(s, calls);
    SmoothRunFinishes(s, steps);
  }

  lemma SmoothRunFinishes(s: Dls, steps: seq<Step>)
    requires Good(s) && AllEnabled(s, steps) && AllSmooth(steps)
    requires var r := Run(s, steps); !r.error && r.isDownloading && r.queue + r.current == []
    ensures Finished(s, Run(s, steps))
  {
    var r := Run(s, steps);
    RunGood(s, steps);
    SmoothRun(s, steps);
    if AllWhole(s) {
      RunWhole(s, steps);
      forall i | 0 <= i < |r.completed| ensures r.completed[i].sink == r.completed[i].remote {
        assert Whole(r.completed[i]) && r.completed[i].progress == |r.completed[i].remote|;
      }
    }
  }

  lemma {:induction false} SmoothRun(s: Dls, steps: seq<Step>)
    requires AllEnabled(s, steps) && AllSmooth(steps)
    ensures Run(s, steps).numDownloads == s.numDownloads
    decreases |steps|
  {
    if steps == [] {
    } else {
      SmoothStep(s, steps[0]);
      SmoothRun(Next(s, steps[0]), steps[1..]);
    }
  }

  // ---- After an error ----

  lemma {:induction false} ErrorUnmarks(s: Dls, events: seq<Step>)
    requires !s.error && Reported(s, events)
    ensures var (t, ok) := HandleEvents(s, events); if ok then !t.error else t.error && !t.isDownloading
    decreases |events|
  {
    if events == [] || IsFatal(s, events[0]) {
    } else {
      ErrorUnmarks(Next(s, events[0]), events[1..]);
    }
  }

  lemma {:induction false} NothingHappens(s: Dls, calls: seq<Call>)
    requires !s.isDownloading && AllFit(s, calls) && forall i :: 0 <= i < |calls| ==> calls[i].Processing?
    ensures After(s, calls) == s && (calls != [] ==> ReportsEnd(s, calls))
    decreases |calls|
  {
    if calls == [] {
    } else {
      assert Perform(s, calls[0]) == (s, true);
      NothingHappens(s, calls[1..]);
    }
  }

  /** The call that meets an error reports the end, and until something new is queued every further call of DL_Process
      does so and changes nothing. */
  lemma ErrorEnds(s: Dls, opens: seq<bool>, events: seq<Step>, calls: seq<Call>)
    requires Good(s) && !s.error && Scripted(s, opens, events) && Tick(s, opens, events).0.error
    requires AllFit(Tick(s, opens, events).0, calls) && forall i :: 0 <= i < |calls| ==> calls[i].Processing?
    ensures var (r, done) := Tick(s, opens, events);
      done && After(r, calls) == r && (calls != [] ==> ReportsEnd(r, calls))
  {
    InitAllGood(s, opens, 0);
    ErrorUnmarks(InitAll(s, opens, 0), events);
    hide Good, HandleEvents, InitAll;
    NothingHappens(Tick(s, opens, events).0, calls);
  }
}
