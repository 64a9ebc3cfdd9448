/** CitizenTaskScheduler: a re-entrant scheduler that runs queued tasks until none is left. */
module TaskScheduler {
  import opened DependencyGraph
  import opened Options

  type TaskId = Ref

  /** What a task body can do to the scheduler: start a task on it, run one synchronously, or tick it. */
  datatype Op = Start(t: TaskId) | RunSynchronously(t: TaskId) | TickNow

  type Bodies = map<TaskId, seq<Op>>

  /** The tasks a body names. */
  function Targets(body: seq<Op>): seq<TaskId> {
    if body == [] then []
    else (if body[0].TickNow? then [] else [body[0].t]) + Targets(body[1..])
  }

  /** Which tasks each task may start. */
  function Spawns(bodies: Bodies): Graph {
    map t | t in bodies :: Targets(bodies[t])
  }

  lemma {:induction false} TargetOf(body: seq<Op>, i: nat)
    requires i < |body| && !body[i].TickNow?
    ensures body[i].t in Targets(body)
  {
    if i == 0 {
    } else {
      TargetOf(body[1..], i - 1);
    }
  }

  lemma TargetExists(bodies: Bodies, task: TaskId, t: TaskId)
    requires Closed(Spawns(bodies)) && task in bodies && t in Targets(bodies[task])
    ensures t in bodies
  {
    assert task in Spawns(bodies) && t in Spawns(bodies)[task];
    assert t in Spawns(bodies);
  }

  lemma {:induction false} TargetAt(body: seq<Op>, t: TaskId) returns (i: nat)
    requires t in Targets(body)
    ensures i < |body| && !body[i].TickNow? && body[i].t == t
  {
    if !body[0].TickNow? && body[0].t == t {
      i := 0;
    } else {
      i := TargetAt(body[1..], t);
      i := i + 1;
    }
  }

  /** A snapshot of the scheduler and of its tasks.
      waiting, executing and completed are the tasks in each state of their life; a task in none of them
      has not been started. The executing tasks are the ones on the call stack.
      queuedEver: every task handed to QueueTask; runs: the tasks whose bodies have started, in order. */
  datatype Scheduler = Scheduler(
    waiting: set<TaskId>, executing: set<TaskId>, completed: set<TaskId>,
    runningTasks: set<TaskId>,
    inTickTasks: Option<set<TaskId>>,
    queuedEver: set<TaskId>,
    runs: seq<TaskId>)
  {
    function Begun(): set<TaskId> { executing + completed }

    function Known(): set<TaskId> { waiting + executing + completed }
  }

  /** Holds whenever task code runs: m_runningTasks is what was queued and has not completed, apart from a
      task whose body has just ended and that the tick is about to remove; and runs holds the bodies that
      have begun, each once. */
  ghost predicate ValidBut(bodies: Bodies, s: Scheduler, ending: set<TaskId>) {
    && Closed(Spawns(bodies)) && s.Known() <= bodies.Keys
    && s.waiting !! s.executing !! s.completed
    && s.waiting <= s.queuedEver <= s.Known()
    && s.runningTasks == (s.queuedEver - s.completed) + ending
    && NoDuplicates(s.runs) && ToSet(s.runs) == s.Begun()
    && (s.inTickTasks.Some? ==> s.inTickTasks.value <= s.queuedEver)
    && CompletedSpawned(bodies, s)
  }

  ghost predicate Valid(bodies: Bodies, s: Scheduler) {
    ValidBut(bodies, s, {})
  }

  ghost predicate SpawnedAll(bodies: Bodies, t: TaskId, known: set<TaskId>) {
    t in bodies ==> ToSet(Targets(bodies[t])) <= known
  }

  /** A completed body has started everything it names. */
  ghost predicate CompletedSpawned(bodies: Bodies, s: Scheduler) {
    forall t :: t in s.completed ==> SpawnedAll(bodies, t, s.Known())
  }

  /** Tasks only advance, the call stack is the same and the order of bodies only grows. */
  ghost predicate Progress(s: Scheduler, r: Scheduler) {
    && s.completed <= r.completed && s.executing == r.executing && s.Known() <= r.Known()
    && s.queuedEver <= r.queuedEver && r.queuedEver * s.Known() <= s.queuedEver
    && s.runs <= r.runs
  }

  /** What is waiting now was waiting before or is in the list of the innermost tick, if there is one. */
  ghost predicate Listed(s: Scheduler, r: Scheduler) {
    match s.inTickTasks
    case None => r.inTickTasks.None?
    case Some(list) =>
      r.inTickTasks.Some? && list <= r.inTickTasks.value && r.waiting <= s.waiting + r.inTickTasks.value
  }

  ghost predicate ReachedFrom(bodies: Bodies, roots: set<TaskId>, t: TaskId) {
    exists q :: q in roots && Reaches(Spawns(bodies), q, t)
  }

  /** Every task that got started was named, directly or not, by a task in roots or by one that was waiting at s. */
  ghost predicate SpawnedFrom(bodies: Bodies, s: Scheduler, r: Scheduler, roots: set<TaskId>) {
    forall t :: t in r.Known() - s.Known() ==> ReachedFrom(bodies, roots + s.waiting, t)
  }

  lemma ProgressTrans(s: Scheduler, m: Scheduler, r: Scheduler)
    requires Progress(s, m) && Progress(m, r)
    ensures Progress(s, r)
  {
  }

  lemma SpawnedTrans(bodies: Bodies, s: Scheduler, m: Scheduler, r: Scheduler, roots: set<TaskId>, more: set<TaskId>)
    requires SpawnedFrom(bodies, s, m, roots) && SpawnedFrom(bodies, m, r, more)
    requires forall q :: q in more + m.waiting ==> q in roots + s.waiting || q in m.Known() - s.Known()
    ensures SpawnedFrom(bodies, s, r, roots)
  {
    var g := Spawns(bodies);
    forall t | t in r.Known() - s.Known()
      ensures ReachedFrom(bodies, roots + s.waiting, t)
    {
      if t !in m.Known() {
        assert t in r.Known() - m.Known();
        var q :| q in more + m.waiting && Reaches(g, q, t);
        if q !in roots + s.waiting {
          assert q in m.Known() - s.Known();
          var p :| p in roots + s.waiting && Reaches(g, p, q);
          ReachTrans(g, p, q, t);
        }
      }
    }
  }

  /** What a child spawns counts as spawned by its parent. */
  lemma SpawnedByParent(bodies: Bodies, s: Scheduler, r: Scheduler, parent: TaskId, child: TaskId)
    requires parent in bodies && child in Targets(bodies[parent]) && SpawnedFrom(bodies, s, r, {child})
    ensures SpawnedFrom(bodies, s, r, {parent})
  {
    var g := Spawns(bodies);
    ReachEdge(g, parent, child);
    forall t | t in r.Known() - s.Known()
      ensures ReachedFrom(bodies, {parent} + s.waiting, t)
    {
      var q :| q in {child} + s.waiting && Reaches(g, q, t);
      if q == child {
        ReachTrans(g, parent, child, t);
        assert parent in {parent} + s.waiting;
      } else {
        assert q in {parent} + s.waiting;
      }
    }
  }

  // ---- What an outermost tick leaves behind ----

  ghost predicate OccursOnce(runs: seq<TaskId>, t: TaskId) {
    exists i :: 0 <= i < |runs| && runs[i] == t && forall j :: 0 <= j < |runs| && j != i ==> runs[j] != t
  }

  /** With no task executing and none waiting: m_runningTasks is empty, every task that was ever queued
      has completed, and every task that was started ran exactly once. */
  lemma IdleScheduler(bodies: Bodies, s: Scheduler)
    requires Valid(bodies, s) && s.executing == {} && s.waiting == {}
    ensures s.runningTasks == {} && s.queuedEver <= s.completed
    ensures forall t :: t in s.Known() ==> OccursOnce(s.runs, t)
  {
    forall t | t in s.Known() ensures OccursOnce(s.runs, t) {
      assert t in ToSet(s.runs);
      var i :| 0 <= i < |s.runs| && s.runs[i] == t;
      forall j | 0 <= j < |s.runs| && j != i ensures s.runs[j] != t {
        if j < i { assert s.runs[j] != s.runs[i]; } else { assert s.runs[i] != s.runs[j]; }
      }
    }
  }

  /** An outermost tick from s to r runs exactly the tasks that the waiting tasks spawn, directly or not. */
  lemma TickRunsClosure(bodies: Bodies, s: Scheduler, r: Scheduler, t: TaskId)
    requires Valid(bodies, s) && Valid(bodies, r) && r.executing == {} && r.waiting == {}
    requires Progress(s, r) && SpawnedFrom(bodies, s, r, {})
    requires t !in s.Begun()
    ensures t in r.completed <==> ReachedFrom(bodies, s.waiting, t)
  {
    var g := Spawns(bodies);
    assert {} + s.waiting == s.waiting;
    if t in r.completed {
      if t in s.waiting {
        ReachRefl(g, t);
      } else {
        assert t in r.Known() - s.Known();
      }
    }
    if ReachedFrom(bodies, s.waiting, t) {
      var q :| q in s.waiting && Reaches(g, q, t);
      assert q in s.Known() && q in r.completed;
      var p :| IsPath(g, p, q, t);
      forall x, d | x in r.completed && x in g && d in g[x] ensures d in r.completed {
        assert SpawnedAll(bodies, x, r.Known());
        assert d in ToSet(Targets(bodies[x]));
      }
      ReachStays(g, r.completed, p, q, t);
    }
  }

  // ---- Steps of the scheduler as facts about snapshots ----

  function Begin(s: Scheduler, task: TaskId): Scheduler {
    s.(waiting := s.waiting - {task}, executing := s.executing + {task}, runs := s.runs + [task])
  }

  /** The task is handed to QueueTask. */
  function Queued(s: Scheduler, task: TaskId): Scheduler {
    s.(waiting := s.waiting + {task}, runningTasks := s.runningTasks + {task}, queuedEver := s.queuedEver + {task},
       inTickTasks := if s.inTickTasks.Some? then Some(s.inTickTasks.value + {task}) else None)
  }

  function End(s: Scheduler, task: TaskId): Scheduler {
    s.(executing := s.executing - {task}, completed := s.completed + {task})
  }

  /** One operation of a body led from s to r. */
  ghost predicate Performed(s: Scheduler, r: Scheduler, op: Op) {
    match op
    case Start(t) => r == if t in s.Known() then s else Queued(s, t)
    case RunSynchronously(t) =>
      if t in s.Known() then r == s
      else t in r.completed && t !in r.queuedEver && s.runs + [t] <= r.runs
    case TickNow => r.waiting == {} && r.inTickTasks == s.inTickTasks
  }

  /** The operations of a body, each done where the one before it ended. */
  ghost predicate AllPerformed(trace: seq<Scheduler>, ops: seq<Op>) {
    |trace| == |ops| + 1 && forall i :: 0 <= i < |ops| ==> Performed(trace[i], trace[i + 1], ops[i])
  }

  /** Entering a body keeps the scheduler valid. */
  lemma BeginValid(bodies: Bodies, s: Scheduler, task: TaskId)
    requires Valid(bodies, s) && task in bodies && task !in s.Begun()
    ensures Valid(bodies, Begin(s, task))
  {
    var r := Begin(s, task);
    assert task !in ToSet(s.runs);
    assert ToSet(r.runs) == ToSet(s.runs) + {task};
    assert r.Known() == s.Known() + {task};
    forall t | t in r.completed ensures SpawnedAll(bodies, t, r.Known()) {
      assert SpawnedAll(bodies, t, s.Known());
    }
  }

  /** Leaving a body that has started everything it names keeps it valid, but for the task's own entry. */
  lemma EndValid(bodies: Bodies, s: Scheduler, task: TaskId)
    requires Valid(bodies, s) && task in bodies && task in s.executing && SpawnedAll(bodies, task, s.Known())
    ensures ValidBut(bodies, End(s, task), s.queuedEver * {task})
  {
    var r := End(s, task);
    assert r.Known() == s.Known() && r.Begun() == s.Begun();
    forall t | t in r.completed ensures SpawnedAll(bodies, t, r.Known()) {
      assert t != task ==> SpawnedAll(bodies, t, s.Known());
    }
  }

  /** A whole body, from before it is entered to after it is left. */
  lemma BodyProgress(bodies: Bodies, s0: Scheduler, s2: Scheduler, task: TaskId)
    requires Valid(bodies, s0) && task in bodies && task !in s0.Begun()
    requires Valid(bodies, s2) && Progress(Begin(s0, task), s2) && Listed(Begin(s0, task), s2)
    requires SpawnedFrom(bodies, Begin(s0, task), s2, {task})
    ensures Progress(s0, End(s2, task)) && Listed(s0, End(s2, task)) && SpawnedFrom(bodies, s0, End(s2, task), {task})
    ensures task in s2.queuedEver <==> task in s0.queuedEver
  {
    var s1 := Begin(s0, task);
    var r := End(s2, task);
    assert s1.Known() == s0.Known() + {task} && r.Known() == s2.Known();
    assert r.executing == s0.executing;
    ReachRefl(Spawns(bodies), task);
    forall t | t in r.Known() - s0.Known() ensures ReachedFrom(bodies, {task} + s0.waiting, t) {
      if t == task {
        assert task in {task} + s0.waiting;
      } else {
        assert t in s2.Known() - s1.Known();
        var q :| q in {task} + s1.waiting && Reaches(Spawns(bodies), q, t);
        assert q in {task} + s0.waiting;
      }
    }
  }

  /** Removing a completed task from m_runningTasks. */
  lemma RemoveValid(bodies: Bodies, s: Scheduler, task: TaskId, ending: set<TaskId>)
    requires ValidBut(bodies, s, ending) && task in s.completed && ending <= {task}
    ensures Valid(bodies, s.(runningTasks := s.runningTasks - {task}))
  {
    var r := s.(runningTasks := s.runningTasks - {task});
    assert r.Known() == s.Known();
    assert CompletedSpawned(bodies, r);
  }

  // ---- The scheduler ----

  class CitizenTaskScheduler {
    const bodies: Bodies
    var inTickTasks: Option<set<TaskId>>
    var runningTasks: set<TaskId>
    // the life of the tasks, kept by the runtime
    var waiting: set<TaskId>
    var executing: set<TaskId>
    var completed: set<TaskId>
    ghost var queuedEver: set<TaskId>
    ghost var runs: seq<TaskId>

    constructor (bodies: Bodies)
      requires Closed(Spawns(bodies))
      ensures this.bodies == bodies && Valid(bodies, View())
      ensures View() == Scheduler({}, {}, {}, {}, None, {}, [])
    {
      this.bodies := bodies;
      inTickTasks := None;
      runningTasks := {};
      waiting, executing, completed := {}, {}, {};
      queuedEver := {};
      runs := [];
    }

    ghost function View(): Scheduler
      reads this
    {
      Scheduler(waiting, executing, completed, runningTasks, inTickTasks, queuedEver, runs)
    }

    predicate NotStarted(task: TaskId)
      reads this
    {
      task !in waiting && task !in executing && task !in completed
    }

    ghost function Unbegun(): set<TaskId>
      reads this
    {
      bodies.Keys - ToSet(runs)
    }

    /** Called by the runtime for a task started on this scheduler. */
    method QueueTask(task: TaskId)
      modifies this`inTickTasks, this`runningTasks, this`queuedEver
      ensures inTickTasks == old(if inTickTasks.Some? then Some(inTickTasks.value + {task}) else None)
      ensures runningTasks == old(runningTasks) + {task}
      ensures queuedEver == old(queuedEver) + {task}
    {
      if inTickTasks != None {
        inTickTasks := Some(inTickTasks.value + {task});
      }
      runningTasks := runningTasks + {task};
      queuedEver := queuedEver + {task};
    }

    /** Starting a task twice is an error the runtime raises before it reaches the scheduler. */
    method StartTask(task: TaskId)
      requires Valid(bodies, View()) && task in bodies
      modifies this
      ensures Valid(bodies, View()) && Progress(old(View()), View()) && Listed(old(View()), View()) && runs == old(runs)
      ensures View().Known() == old(View().Known()) + {task}
      ensures old(NotStarted(task)) ==> View() == Queued(old(View()), task)
      ensures !old(NotStarted(task)) ==> View() == old(View())
    {
      ghost var s := View();
      if NotStarted(task) {
        waiting := waiting + {task};
        QueueTask(task);
        QueueValid(bodies, s, task);
      } else {
        assert s.Known() + {task} == s.Known();
      }
    }

    method TryExecuteTaskInline(task: TaskId, taskWasPreviouslyQueued: bool) returns (executed: bool)
      requires Valid(bodies, View()) && task in bodies
      requires taskWasPreviouslyQueued <==> !NotStarted(task)
      modifies this
      ensures Valid(bodies, View()) && Progress(old(View()), View()) && Listed(old(View()), View())
      ensures SpawnedFrom(bodies, old(View()), View(), {task}) && task in View().Known()
      ensures taskWasPreviouslyQueued ==> !executed && View() == old(View())
      ensures !taskWasPreviouslyQueued ==> executed && task in completed && task !in queuedEver
      ensures !taskWasPreviouslyQueued ==> old(runs) + [task] <= runs
      decreases Unbegun(), 1
    {
      if !taskWasPreviouslyQueued {
        executed := TryExecuteTask(task);
      } else {
        executed := false;
      }
    }

    /** One operation of the body of `task`, which is executing. */
    method Perform(op: Op, ghost task: TaskId)
      requires Valid(bodies, View()) && task in executing
      requires !op.TickNow? ==> op.t in Targets(bodies[task])
      modifies this
      ensures Valid(bodies, View()) && Progress(old(View()), View()) && Listed(old(View()), View())
      ensures SpawnedFrom(bodies, old(View()), View(), {task})
      ensures !op.TickNow? ==> op.t in View().Known()
      ensures Performed(old(View()), View(), op)
      decreases Unbegun(), 3
    {
      ghost var s := View();
      assert task in s.Known();
      if !op.TickNow? {
        TargetExists(bodies, task, op.t);
      }
      match op {
        case Start(t) =>
          StartTask(t);
          ReachEdge(Spawns(bodies), task, t);
          assert task in {task} + s.waiting;
        case RunSynchronously(t) =>
          var inlined := TryExecuteTaskInline(t, !NotStarted(t));
          SpawnedByParent(bodies, s, View(), task, t);
        case TickNow =>
          Tick();
          SpawnedTrans(bodies, s, s, View(), {task}, {});
      }
    }

    /** The body of an executing task: its operations one after the other. */
    method RunBody(task: TaskId) returns (ghost trace: seq<Scheduler>)
      requires Valid(bodies, View()) && task in bodies && task in executing
      modifies this
      ensures Valid(bodies, View()) && Progress(old(View()), View()) && Listed(old(View()), View())
      ensures SpawnedFrom(bodies, old(View()), View(), {task}) && SpawnedAll(bodies, task, View().Known())
      ensures executing == old(executing) && old(runs) <= runs
      ensures AllPerformed(trace, bodies[task]) && trace[0] == old(View()) && trace[|bodies[task]|] == View()
      decreases Unbegun(), 4
    {
      hide Valid, Progress, Listed, SpawnedFrom, SpawnedAll, Performed;
      ghost var s1 := View();
      Reflexive(bodies, s1, task);
      trace := [s1];
      var body := bodies[task];
      for i := 0 to |body|
        invariant AllPerformed(trace, body[..i]) && trace[0] == s1 && trace[i] == View()
        invariant Valid(bodies, View()) && Progress(s1, View()) && Listed(s1, View())
        invariant SpawnedFrom(bodies, s1, View(), {task})
        invariant executing == s1.executing && s1.runs <= runs && Unbegun() <= bodies.Keys - ToSet(s1.runs)
        invariant forall j :: 0 <= j < i && !body[j].TickNow? ==> body[j].t in View().Known()
      {
        ghost var m := View();
        if !body[i].TickNow? {
          TargetOf(body, i);
        }
        Perform(body[i], task);
        Chain(bodies, s1, m, View(), task);
        trace := trace + [View()];
      }
      assert body[..|body|] == body;
      AllSpawned(bodies, View(), task);
    }

    /** The runtime runs a body once: a task that is executing or done is refused. */
    method TryExecuteTask(task: TaskId) returns (executed: bool)
      requires Valid(bodies, View()) && task in bodies
      modifies this
      ensures ValidBut(bodies, View(), if executed then queuedEver * {task} else {})
      ensures Progress(old(View()), View()) && Listed(old(View()), View())
      ensures SpawnedFrom(bodies, old(View()), View(), {task})
      ensures executed <==> old(task !in View().Begun())
      ensures !executed ==> View() == old(View())
      ensures executed ==> old(runs) + [task] <= runs && task in completed
      ensures task in queuedEver <==> task in old(queuedEver)
      decreases Unbegun(), 0
    {
      if task in executing || task in completed {
        return false;
      }
      hide Valid, Progress, Listed, SpawnedFrom, SpawnedAll;
      ghost var s0 := View();
      waiting := waiting - {task};
      executing := executing + {task};
      runs := runs + [task];
      ghost var s1 := View();
      BeginValid(bodies, s0, task);
      BegunShrinks(bodies, s0, s1, task);
      ghost var trace := RunBody(task);
      ghost var s2 := View();
      executing := executing - {task};
      completed := completed + {task};
      EndValid(bodies, s2, task);
      BodyProgress(bodies, s0, s2, task);
      return true;
    }

    /** The values of a dictionary, in an order the scheduler does not know. */
    method Values(keys: set<TaskId>) returns (values: seq<TaskId>)
      ensures ToSet(values) == keys && |values| == |keys|
    {
      values := [];
      var rest := keys;
      while rest != {}
        invariant rest <= keys && |values| + |rest| == |keys|
        invariant ToSet(values) == keys - rest
        decreases rest
      {
        var t :| t in rest;
        assert ToSet(values + [t]) == ToSet(values) + {t};
        values := values + [t];
        rest := rest - {t};
      }
    }

    /** Runs the waiting tasks, and those they queue, until none is left. */
    method Tick()
      requires Valid(bodies, View())
      modifies this
      ensures Valid(bodies, View()) && Progress(old(View()), View())
      ensures SpawnedFrom(bodies, old(View()), View(), {})
      ensures inTickTasks == old(inTickTasks) && waiting == {}
      decreases Unbegun(), 2
    {
      hide InTick, Valid, Progress, SpawnedFrom;
      ghost var s0, start := View(), Unbegun();
      var tasks := Values(runningTasks);
      var lastInTickTasks := inTickTasks;
      inTickTasks := Some({});
      TickBegins(bodies, s0);
      var more := true;
      while more
        invariant InTick(bodies, s0, View()) && inTickTasks == Some({})
        invariant ToSet(tasks) <= queuedEver && waiting <= ToSet(tasks)
        invariant !more ==> tasks == []
        invariant Unbegun() <= start
        decreases Unbegun(), |tasks|, more
      {
        RunAll(tasks, s0);
        ListTaken(bodies, s0, View());
        tasks := Values(inTickTasks.value);
        inTickTasks := Some({});
        more := |tasks| != 0;
      }
      TickEnds(bodies, s0, View());
      inTickTasks := lastInTickTasks;
    }

    /** One pass over a list of tasks. */
    method RunAll(tasks: seq<TaskId>, ghost s0: Scheduler)
      requires InTick(bodies, s0, View()) && inTickTasks == Some({})
      requires ToSet(tasks) <= queuedEver && waiting <= ToSet(tasks)
      modifies this
      ensures InTick(bodies, s0, View()) && inTickTasks.Some? && waiting <= inTickTasks.value
      ensures Unbegun() <= old(Unbegun())
      ensures Unbegun() == old(Unbegun()) ==> inTickTasks == Some({})
      decreases Unbegun(), 1, 1
    {
      hide InTick;
      ghost var start := Unbegun();
      for i := 0 to |tasks|
        invariant InTick(bodies, s0, View()) && Unbegun() <= start
        invariant inTickTasks.Some? && (Unbegun() == start ==> inTickTasks == Some({}))
        invariant ToSet(tasks) <= queuedEver && waiting <= ToSet(tasks[i..]) + inTickTasks.value
      {
        TailSet(tasks, i);
        RunOne(tasks[i], s0);
      }
    }

    /** One turn of the tick's inner loop. */
    method RunOne(task: TaskId, ghost s0: Scheduler)
      requires InTick(bodies, s0, View()) && inTickTasks.Some? && task in queuedEver
      modifies this
      ensures InTick(bodies, s0, View()) && inTickTasks.Some? && task !in waiting
      ensures waiting <= old(waiting) + inTickTasks.value && old(inTickTasks.value) <= inTickTasks.value
      ensures old(queuedEver) <= queuedEver && Unbegun() <= old(Unbegun())
      ensures Unbegun() == old(Unbegun()) ==> inTickTasks == old(inTickTasks)
      decreases Unbegun(), 1, 0
    {
      ghost var m := View();
      var executed := TryExecuteTask(task);
      ghost var r := View();
      if task in completed {
        runningTasks := runningTasks - {task};
        RemoveValid(bodies, r, task, if executed then queuedEver * {task} else {});
      }
      RunOneInTick(bodies, s0, m, r, View(), task, executed);
      RunsShrink(bodies, s0, View(), m);
    }
  }

  /** What holds inside a tick that began at s0. */
  ghost predicate InTick(bodies: Bodies, s0: Scheduler, s: Scheduler) {
    Valid(bodies, s) && Progress(s0, s) && SpawnedFrom(bodies, s0, s, {}) && s.inTickTasks.Some?
  }

  lemma TailSet(tasks: seq<TaskId>, i: nat)
    requires i < |tasks|
    ensures tasks[i] in ToSet(tasks) && ToSet(tasks[i..]) == {tasks[i]} + ToSet(tasks[i + 1..])
  {
    assert tasks[i..] == [tasks[i]] + tasks[i + 1..];
  }

  lemma TickBegins(bodies: Bodies, s: Scheduler)
    requires Valid(bodies, s)
    ensures InTick(bodies, s, s.(inTickTasks := Some({}))) && s.waiting <= s.runningTasks <= s.queuedEver
  {
    assert s.(inTickTasks := Some({})).Known() == s.Known();
    assert CompletedSpawned(bodies, s.(inTickTasks := Some({})));
  }

  /** The tick takes the list of what was queued while it ran. */
  lemma ListTaken(bodies: Bodies, s0: Scheduler, s: Scheduler)
    requires InTick(bodies, s0, s)
    ensures InTick(bodies, s0, s.(inTickTasks := Some({}))) && s.inTickTasks.value <= s.queuedEver
  {
    assert s.(inTickTasks := Some({})).Known() == s.Known();
    assert CompletedSpawned(bodies, s.(inTickTasks := Some({})));
  }

  lemma TickEnds(bodies: Bodies, s0: Scheduler, s: Scheduler)
    requires InTick(bodies, s0, s) && Valid(bodies, s0)
    ensures var r := s.(inTickTasks := s0.inTickTasks);
      Valid(bodies, r) && Progress(s0, r) && SpawnedFrom(bodies, s0, r, {})
  {
    var r := s.(inTickTasks := s0.inTickTasks);
    assert r.Known() == s.Known();
    assert CompletedSpawned(bodies, r);
  }

  /** The bodies left to run only get fewer, and do so whenever one has begun. */
  lemma RunsShrink(bodies: Bodies, s0: Scheduler, s: Scheduler, before: Scheduler)
    requires InTick(bodies, s0, s) && before.runs <= s.runs
    ensures bodies.Keys - ToSet(s.runs) <= bodies.Keys - ToSet(before.runs)
    ensures s.runs == before.runs || bodies.Keys - ToSet(s.runs) < bodies.Keys - ToSet(before.runs)
  {
    forall x | x in ToSet(before.runs) ensures x in ToSet(s.runs) {
      var i :| 0 <= i < |before.runs| && before.runs[i] == x;
      assert s.runs[i] == x;
    }
    if s.runs != before.runs {
      var x := s.runs[|before.runs|];
      assert x in ToSet(s.runs) && x in bodies.Keys;
      forall i | 0 <= i < |before.runs| ensures before.runs[i] != x {
        assert s.runs[i] != s.runs[|before.runs|];
      }
    }
  }

  lemma RunOneInTick(bodies: Bodies, s0: Scheduler, m: Scheduler, r: Scheduler, t: Scheduler, task: TaskId,
                     executed: bool)
    requires InTick(bodies, s0, m) && task in m.queuedEver && Valid(bodies, t)
    requires executed <==> task !in m.Begun()
    requires Progress(m, r) && Listed(m, r) && SpawnedFrom(bodies, m, r, {task}) && (!executed ==> r == m)
    requires t == r.(runningTasks := t.runningTasks)
    ensures InTick(bodies, s0, t)
  {
    assert t.Known() == r.Known();
    ProgressTrans(s0, m, r);
    if executed {
      assert SpawnedFrom(bodies, m, t, {task});
      assert task in m.waiting;
      forall q | q in {task} + m.waiting ensures q in {} + s0.waiting || q in m.Known() - s0.Known() {
      }
      SpawnedTrans(bodies, s0, m, t, {}, {task});
    }
  }

  lemma Reflexive(bodies: Bodies, s: Scheduler, task: TaskId)
    ensures Progress(s, s) && Listed(s, s) && SpawnedFrom(bodies, s, s, {task})
  {
  }

  lemma BegunShrinks(bodies: Bodies, s0: Scheduler, m: Scheduler, task: TaskId)
    requires Valid(bodies, s0) && task in bodies && task !in s0.Begun() && s0.runs + [task] <= m.runs
    ensures bodies.Keys - ToSet(m.runs) < bodies.Keys - ToSet(s0.runs)
  {
    assert task !in ToSet(s0.runs);
    assert (s0.runs + [task])[|s0.runs|] == m.runs[|s0.runs|] == task;
    assert task in ToSet(m.runs);
    forall x | x in ToSet(s0.runs) ensures x in ToSet(m.runs) {
      var i :| 0 <= i < |s0.runs| && s0.runs[i] == x;
      assert m.runs[i] == x;
    }
  }

  /** Two stretches of the same body. */
  lemma Chain(bodies: Bodies, s: Scheduler, m: Scheduler, r: Scheduler, task: TaskId)
    requires Valid(bodies, s) && Valid(bodies, m) && Valid(bodies, r)
    requires Progress(s, m) && Listed(s, m) && SpawnedFrom(bodies, s, m, {task})
    requires Progress(m, r) && Listed(m, r) && SpawnedFrom(bodies, m, r, {task})
    ensures Progress(s, r) && Listed(s, r) && SpawnedFrom(bodies, s, r, {task})
    ensures m.Known() <= r.Known() && m.executing == r.executing && m.runs <= r.runs
    ensures bodies.Keys - ToSet(r.runs) <= bodies.Keys - ToSet(m.runs)
  {
    forall x | x in ToSet(m.runs) ensures x in ToSet(r.runs) {
      var i :| 0 <= i < |m.runs| && m.runs[i] == x;
      assert r.runs[i] == x;
    }
    ProgressTrans(s, m, r);
    forall q | q in {task} + m.waiting ensures q in {task} + s.waiting || q in m.Known() - s.Known() {
      if q in m.waiting && q in s.Known() {
        assert q !in s.executing && q !in s.completed;
      }
    }
    SpawnedTrans(bodies, s, m, r, {task}, {task});
  }

  lemma AllSpawned(bodies: Bodies, s: Scheduler, task: TaskId)
    requires task in bodies
    requires forall j :: 0 <= j < |bodies[task]| && !bodies[task][j].TickNow? ==> bodies[task][j].t in s.Known()
    ensures SpawnedAll(bodies, task, s.Known())
  {
    forall d | d in Targets(bodies[task]) ensures d in s.Known() {
      var j := TargetAt(bodies[task], d);
    }
  }

  lemma QueueValid(bodies: Bodies, s: Scheduler, task: TaskId)
    requires Valid(bodies, s) && task in bodies && task !in s.Known()
    ensures Valid(bodies, Queued(s, task)) && Progress(s, Queued(s, task)) && Listed(s, Queued(s, task))
    ensures Queued(s, task).Known() == s.Known() + {task}
  {
    var r := Queued(s, task);
    assert r.Known() == s.Known() + {task};
    forall t | t in r.completed ensures SpawnedAll(bodies, t, r.Known()) {
      assert SpawnedAll(bodies, t, s.Known());
    }
  }
}
