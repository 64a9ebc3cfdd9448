/** The launcher's download queue: admission by size class, transfers that are resumed where they stopped, and a
    bounded number of attempts. A transfer is a series of events; the remote object is what the server holds. */
module Download {

  import opened LittleEndian

  const MAX_CONCURRENT_DOWNLOADS := 6
  const MAX_CONCURRENT_DOWNLOADS_HUGE := 2
  const HUGE_SIZE := 10 * 1024 * 1024
  const MEGA_HUGE_SIZE := 40 * 1024 * 1024
  const RETRIES := 10

  /** Unstarted has no curl handle, Ended has one whose transfer is over for good. */
  datatype Handle = Unstarted | Active | Ended

  /** sink is what the file or the decoder was given; attempts counts the transfers started so far. */
  datatype Item = Item(id: nat, size: int, remote: seq<byte>, sink: seq<byte>, progress: nat, retries: nat,
                       attempts: nat, handle: Handle)

  /** admitted and completed are history. */
  datatype Dls = Dls(queue: seq<Item>, current: seq<Item>, numDownloads: nat, completedDownloads: nat,
                     totalSize: int, completedSize: nat, isDownloading: bool, error: bool,
                     admitted: seq<nat>, completed: seq<Item>)

  // ---- The parts of the source ----

  /** CL_InitDownloadQueue */
  const EMPTY := Dls([], [], 0, 0, 0, 0, false, false, [], [])

  function NewItem(id: nat, size: int, remote: seq<byte>): Item {
    Item(id, size, remote, [], 0, RETRIES, 0, Unstarted)
  }

  /** CL_QueueDownload */
  function Queue(s: Dls, size: int, remote: seq<byte>): Dls {
    s.(queue := s.queue + [NewItem(s.numDownloads, size, remote)], numDownloads := s.numDownloads + 1,
       totalSize := s.totalSize + size, isDownloading := true)
  }

  /** Whether a download of this size may join n running ones. */
  predicate Admissible(n: nat, size: int) {
    n < MAX_CONCURRENT_DOWNLOADS
    && (n >= MAX_CONCURRENT_DOWNLOADS_HUGE ==> size <= HUGE_SIZE)
    && (n >= 1 ==> size <= MEGA_HUGE_SIZE)
  }

  /** DL_DequeueDownload */
  function Dequeue(s: Dls): Dls
    requires s.queue != []
  {
    if !Admissible(|s.current|, s.queue[0].size) then s else
      s.(current := s.current + [s.queue[0]], queue := s.queue[1..], admitted := s.admitted + [s.queue[0].id])
  }

  /** The head joins fewer than six, beside at most one if it is over 10 MiB, and only alone if it is over 40 MiB. */
  lemma AdmitsExactly(s: Dls)
    requires s.queue != []
    ensures var d, n, r := s.queue[0], |s.current|, Dequeue(s);
      if n < 6 && (d.size > 10485760 ==> n < 2) && (d.size > 41943040 ==> n == 0) then
        r.current == s.current + [d] && r.queue == s.queue[1..] && r.current != s.current
      else r == s
  {
    var r := Dequeue(s);
    assert r != s ==> |r.current| == |s.current| + 1;
  }

  /** initCurlDownload: the file is opened afresh or, with some progress, for appending; if it cannot be opened
      the whole queue is marked as not downloading. */
  function Init(s: Dls, k: nat, canOpen: bool): Dls
    requires k < |s.current|
  {
    var d := s.current[k];
    if !canOpen then s.(isDownloading := false) else
      s.(current := s.current[k := d.(sink := if d.progress == 0 then [] else d.sink, attempts := d.attempts + 1,
                                      handle := Active)])
  }

  /** DL_WriteToFile: the server sends n bytes from where the transfer is, the file takes `written` of them. */
  function Write(s: Dls, k: nat, n: nat, written: nat): Dls
    requires k < |s.current| && written <= n <= |s.current[k].remote| - s.current[k].progress
  {
    var d := s.current[k];
    s.(current := s.current[k := d.(sink := d.sink + d.remote[d.progress..d.progress + written],
                                    progress := d.progress + n)],
       completedSize := s.completedSize + n)
  }

  /** DL_ProcessDownload gives up over item k, upon which DL_Process stops the queue. */
  function Fatal(s: Dls, k: nat): Dls
    requires k < |s.current|
  {
    s.(current := s.current[k := s.current[k].(handle := Ended)], isDownloading := false, error := true)
  }

  /** The transfer is complete; moving the file into place may fail. */
  function Succeed(s: Dls, k: nat, moved: bool): Dls
    requires k < |s.current|
  {
    if !moved then Fatal(s, k) else
      s.(current := s.current[..k] + s.current[k + 1..], completedDownloads := s.completedDownloads + 1,
         completed := s.completed + [s.current[k]])
  }

  /** The transfer failed: another attempt unless the server refused or no retries are left. */
  function Fail(s: Dls, k: nat, refused: bool, canOpen: bool): Dls
    requires k < |s.current|
  {
    var d := s.current[k];
    if refused || d.retries == 0 then Fatal(s, k) else
      Init(s.(current := s.current[k := d.(retries := d.retries - 1, handle := Unstarted)]), k, canOpen)
  }

  // ---- Steps ----

  datatype Step =
    | Enqueue(size: int, remote: seq<byte>)
    | Admit
    | Start(k: nat, canOpen: bool)
    | Receive(k: nat, n: nat, written: nat)
    | Done(k: nat, moved: bool)
    | Broken(k: nat, refused: bool, canOpen: bool)

  /** The server honours ranges: a transfer sends the rest of the object and is complete when all of it is sent. */
  predicate Enabled(s: Dls, step: Step) {
    match step
    case Enqueue(_, _) => true
    case Admit => s.queue != []
    case Start(k, _) => k < |s.current| && s.current[k].handle == Unstarted
    case Receive(k, n, written) =>
      k < |s.current| && s.current[k].handle == Active && written <= n <= |s.current[k].remote| - s.current[k].progress
    case Done(k, _) => k < |s.current| && s.current[k].handle == Active
      && s.current[k].progress == |s.current[k].remote|
    case Broken(k, _, _) => k < |s.current| && s.current[k].handle == Active
  }

  function Next(s: Dls, step: Step): Dls
    requires Enabled(s, step)
  {
    match step
    case Enqueue(size, remote) => Queue(s, size, remote)
    case Admit => Dequeue(s)
    case Start(k, canOpen) => Init(s, k, canOpen)
    case Receive(k, n, written) => Write(s, k, n, written)
    case Done(k, moved) => Succeed(s, k, moved)
    case Broken(k, refused, canOpen) => Fail(s, k, refused, canOpen)
  }

  // ---- What every run keeps ----

  /** Each item: the attempts and retries add up, and unless bytes were lost the sink is what was sent so far. */
  predicate ItemGood(d: Item) {
    && d.attempts + d.retries == (if d.handle == Unstarted then RETRIES else RETRIES + 1)
    && d.progress <= |d.remote|
    && |d.sink| <= d.progress
    && (|d.sink| == d.progress ==> d.sink == d.remote[..d.progress])
  }

  /** Admission is first in, first out, and every download is accounted for. */
  predicate Accounted(s: Dls) {
    && s.numDownloads == s.completedDownloads + |s.queue| + |s.current|
    && |s.completed| == s.completedDownloads
    && |s.admitted| == s.completedDownloads + |s.current|
    && (forall i :: 0 <= i < |s.admitted| ==> s.admitted[i] == i)
    && (forall i :: 0 <= i < |s.queue| ==> s.queue[i] == NewItem(|s.admitted| + i, s.queue[i].size, s.queue[i].remote))
    && (forall i :: 0 <= i < |s.current| ==> s.current[i].id < |s.admitted|)
    && (forall i, j :: 0 <= i < j < |s.current| ==> s.current[i].id < s.current[j].id)
  }

  /** Large files are never far from the head of the running ones. */
  predicate WithinClasses(s: Dls) {
    && |s.current| <= MAX_CONCURRENT_DOWNLOADS
    && (forall i :: 0 <= i < |s.current| && s.current[i].size > HUGE_SIZE ==> i < MAX_CONCURRENT_DOWNLOADS_HUGE)
    && (forall i :: 0 <= i < |s.current| && s.current[i].size > MEGA_HUGE_SIZE ==> i < 1)
  }

  predicate ItemsGood(s: Dls) {
    && (forall i :: 0 <= i < |s.current| ==> ItemGood(s.current[i]) && (s.current[i].handle == Ended ==> s.error))
    && (forall i :: 0 <= i < |s.completed| ==>
        ItemGood(s.completed[i]) && s.completed[i].progress == |s.completed[i].remote|)
  }

  predicate Good(s: Dls) {
    Accounted(s) && WithinClasses(s) && ItemsGood(s)
  }

  /** r is s with the k-th running item in another state, and the books unchanged. */
  predicate Replaced(s: Dls, r: Dls, k: nat) {
    && k < |s.current| == |r.current|
    && r.current == s.current[k := r.current[k]]
    && r.current[k].id == s.current[k].id && r.current[k].size == s.current[k].size
    && r.queue == s.queue && r.numDownloads == s.numDownloads && r.completedDownloads == s.completedDownloads
    && r.admitted == s.admitted && r.completed == s.completed && (s.error ==> r.error)
  }

  lemma ReplacedGood(s: Dls, r: Dls, k: nat)
    requires Good(s) && Replaced(s, r, k)
    requires ItemGood(r.current[k]) && (r.current[k].handle == Ended ==> r.error)
    ensures Good(r)
  {
    assert Accounted(r) by { hide ItemsGood, WithinClasses, ItemGood; }
    assert WithinClasses(r) by { hide ItemsGood, Accounted, ItemGood; }
    assert ItemsGood(r) by { hide WithinClasses, Accounted, ItemGood; }
  }

  lemma RemovedGood(s: Dls, k: nat)
    requires Good(s) && k < |s.current| && s.current[k].progress == |s.current[k].remote|
    ensures Good(Succeed(s, k, true))
  {
    var r := Succeed(s, k, true);
    assert forall i :: 0 <= i < |r.current| ==> r.current[i] == s.current[if i < k then i else i + 1];
    assert Accounted(r) by { hide ItemsGood, WithinClasses, ItemGood; }
    assert WithinClasses(r) by { hide ItemsGood, Accounted, ItemGood; }
    assert ItemsGood(r) by { hide WithinClasses, Accounted, ItemGood; }
  }

  lemma AdmittedGood(s: Dls)
    requires Good(s) && s.queue != []
    ensures Good(Dequeue(s))
  {
    var r := Dequeue(s);
    var d := s.queue[0];
    assert d == NewItem(|s.admitted|, d.size, d.remote);
    assert Accounted(r) by { hide ItemsGood, WithinClasses, ItemGood; }
    assert WithinClasses(r) by { hide ItemsGood, Accounted, ItemGood, NewItem; }
    assert ItemsGood(r) by { hide WithinClasses, Accounted; }
  }

  lemma QueuedGood(s: Dls, size: int, remote: seq<byte>)
    requires Good(s)
    ensures Good(Queue(s, size, remote))
  {
    var r := Queue(s, size, remote);
    assert Accounted(r) by { hide ItemsGood, WithinClasses, ItemGood; }
    assert WithinClasses(r) by { hide ItemsGood, Accounted, ItemGood; }
    assert ItemsGood(r) by { hide WithinClasses, Accounted, ItemGood; }
  }

  lemma InitGood(s: Dls, k: nat, canOpen: bool)
    requires Good(s) && k < |s.current| && s.current[k].handle == Unstarted
    ensures Good(Init(s, k, canOpen))
  {
    hide WithinClasses, Accounted;
    var r := Init(s, k, canOpen);
    if canOpen {
      assert s.current[k].progress == 0 ==> s.current[k].sink == [];
      ReplacedGood(s, r, k);
    } else {
      ReplacedGood(s, r, k);
    }
  }

  lemma WriteGood(s: Dls, k: nat, n: nat, written: nat)
    requires Good(s) && k < |s.current| && written <= n <= |s.current[k].remote| - s.current[k].progress
    requires s.current[k].handle == Active
    ensures Good(Write(s, k, n, written))
  {
    var d, r := s.current[k], Write(s, k, n, written);
    assert ItemGood(r.current[k]) by {
      assert d.remote[..d.progress] + d.remote[d.progress..d.progress + written] == d.remote[..d.progress + written];
    }
    hide ItemGood;
    ReplacedGood(s, r, k);
  }

  lemma FailGood(s: Dls, k: nat, refused: bool, canOpen: bool)
    requires Good(s) && k < |s.current| && s.current[k].handle == Active
    ensures Good(Fail(s, k, refused, canOpen))
  {
    hide WithinClasses, Accounted, Init;
    var d := s.current[k];
    assert ItemGood(d) && (d.handle == Ended ==> s.error);
    if refused || d.retries == 0 {
      hide ItemsGood;
      assert ItemGood(d.(handle := Ended));
      ReplacedGood(s, Fatal(s, k), k);
    } else {
      hide ItemsGood;
      var e := d.(retries := d.retries - 1, handle := Unstarted);
      var r := s.(current := s.current[k := e]);
      assert ItemGood(e);
      ReplacedGood(s, r, k);
      InitGood(r, k, canOpen);
    }
  }

  lemma NextGood(s: Dls, step: Step)
    requires Good(s) && Enabled(s, step)
    ensures Good(Next(s, step))
  {
    match step {
      case Enqueue(size, remote) => QueuedGood(s, size, remote);
      case Admit => AdmittedGood(s);
      case Start(k, canOpen) => InitGood(s, k, canOpen);
      case Receive(k, n, written) => WriteGood(s, k, n, written);
      case Done(k, moved) => if moved { RemovedGood(s, k); } else { ReplacedGood(s, Fatal(s, k), k); }
      case Broken(k, refused, canOpen) => FailGood(s, k, refused, canOpen);
    }
  }

  predicate AllEnabled(s: Dls, steps: seq<Step>)
    decreases |steps|
  {
    steps == [] || (Enabled(s, steps[0]) && AllEnabled(Next(s, steps[0]), steps[1..]))
  }

  function Run(s: Dls, steps: seq<Step>): Dls
    requires AllEnabled(s, steps)
    decreases |steps|
  {
    if steps == [] then s else Run(Next(s, steps[0]), steps[1..])
  }

  lemma {:induction false} RunGood(s: Dls, steps: seq<Step>)
    requires Good(s) && AllEnabled(s, steps)
    ensures Good(Run(s, steps))
    decreases |steps|
  {
    if steps == [] {
    } else {
      NextGood(s, steps[0]);
      hide Next, Good, Enabled;
      RunGood(Next(s, steps[0]), steps[1..]);
    }
  }

  /** How many running downloads are larger than a size. */
  function Larger(items: seq<Item>, size: int): nat {
    if items == [] then 0 else (if items[0].size > size then 1 else 0) + Larger(items[1..], size)
  }

  lemma {:induction false} LargerBound(items: seq<Item>, size: int, n: nat)
    requires forall i :: 0 <= i < |items| && items[i].size > size ==> i < n
    ensures Larger(items, size) <= n
  {
    if items == [] {
    } else {
      if n == 0 {
        LargerNone(items, size);
      } else {
        assert forall i :: 0 <= i < |items[1..]| && items[1..][i].size > size ==> i + 1 < n;
        LargerBound(items[1..], size, n - 1);
      }
    }
  }

  lemma {:induction false} LargerNone(items: seq<Item>, size: int)
    requires forall i :: 0 <= i < |items| ==> items[i].size <= size
    ensures Larger(items, size) == 0
  {
    if items == [] {
    } else {
      LargerNone(items[1..], size);
    }
  }

  /** In every reachable state: the concurrency limits, admission in the order of queueing, the books, and at most
      eleven attempts an item. */
  lemma LimitsAlways(steps: seq<Step>)
    requires AllEnabled(EMPTY, steps)
    ensures var s := Run(EMPTY, steps);
      && |s.current| <= 6 && Larger(s.current, HUGE_SIZE) <= 2 && Larger(s.current, MEGA_HUGE_SIZE) <= 1
      && s.numDownloads == s.completedDownloads + |s.queue| + |s.current|
      && (forall i :: 0 <= i < |s.admitted| ==> s.admitted[i] == i)
      && (forall i :: 0 <= i < |s.queue| ==> s.queue[i].id == |s.admitted| + i)
      && (forall i :: 0 <= i < |s.current| ==> s.current[i].attempts <= 11)
      && (forall i :: 0 <= i < |s.completed| ==> s.completed[i].attempts <= 11)
  {
    var s := Run(EMPTY, steps);
    RunGood(EMPTY, steps);
    LargerBound(s.current, HUGE_SIZE, 2);
    LargerBound(s.current, MEGA_HUGE_SIZE, 1);
  }

  // ---- What the sinks hold ----

  /** The sink holds exactly what was sent. */
  predicate Whole(d: Item) {
    d.progress <= |d.remote| && d.sink == d.remote[..d.progress]
  }

  ghost predicate AllWhole(s: Dls) {
    && (forall i :: 0 <= i < |s.current| ==> Whole(s.current[i]))
    && (forall i :: 0 <= i < |s.completed| ==> Whole(s.completed[i]))
  }

  predicate WritesComplete(steps: seq<Step>) {
    forall i :: 0 <= i < |steps| && steps[i].Receive? ==> steps[i].written == steps[i].n
  }

  /** A piece keeps the sink whole exactly when all of it is written: the progress counts what was sent. */
  lemma WriteWholeExactly(s: Dls, k: nat, n: nat, written: nat)
    requires k < |s.current| && written <= n <= |s.current[k].remote| - s.current[k].progress && Whole(s.current[k])
    ensures Whole(Write(s, k, n, written).current[k]) <==> written == n
  {
    var d := s.current[k];
    assert d.remote[..d.progress] + d.remote[d.progress..d.progress + written] == d.remote[..d.progress + written];
  }

  lemma StepWhole(s: Dls, step: Step)
    requires Good(s) && AllWhole(s) && Enabled(s, step) && (step.Receive? ==> step.written == step.n)
    ensures AllWhole(Next(s, step))
  {
    hide WithinClasses, ItemsGood, ItemGood;
    match step {
      case Receive(k, n, written) => WriteWholeExactly(s, k, n, written);
      case Admit => assert Whole(NewItem(|s.admitted|, s.queue[0].size, s.queue[0].remote)); hide Whole;
      case _ =>
    }
  }

  lemma {:induction false} RunWhole(s: Dls, steps: seq<Step>)
    requires Good(s) && AllWhole(s) && AllEnabled(s, steps) && WritesComplete(steps)
    ensures AllWhole(Run(s, steps)) && Good(Run(s, steps))
    decreases |steps|
  {
    if steps == [] {
    } else {
      StepWhole(s, steps[0]);
      NextGood(s, steps[0]);
      hide Next, Good, Enabled, AllWhole;
      RunWhole(Next(s, steps[0]), steps[1..]);
    }
  }

  /** However often a transfer breaks off and is resumed, what its sink has been given is the first `progress`
      bytes of the object, and a completed download has been given the whole object. */
  lemma SinkIsPrefix(steps: seq<Step>)
    requires AllEnabled(EMPTY, steps) && WritesComplete(steps)
    ensures var s := Run(EMPTY, steps);
      && (forall i :: 0 <= i < |s.current| ==>
            s.current[i].progress <= |s.current[i].remote|
              && s.current[i].sink == s.current[i].remote[..s.current[i].progress])
      && (forall i :: 0 <= i < |s.completed| ==> s.completed[i].sink == s.completed[i].remote)
  {
    RunWhole(EMPTY, steps);
    var s := Run(EMPTY, steps);
    forall i | 0 <= i < |s.completed| ensures s.completed[i].sink == s.completed[i].remote {
      assert Whole(s.completed[i]) && s.completed[i].progress == |s.completed[i].remote|;
    }
  }

  /** A lost byte stays lost: the sink is shorter than the progress ever after. */
  predicate Lost(d: Item) {
    |d.sink| < d.progress <= |d.remote|
  }

  ghost predicate SomeLost(s: Dls) {
    (exists i :: 0 <= i < |s.current| && Lost(s.current[i]))
      || (exists i :: 0 <= i < |s.completed| && Lost(s.completed[i]))
  }

  lemma LostIsNotWhole(s: Dls)
    requires Good(s)
    ensures SomeLost(s) <==> !AllWhole(s)
  {
    hide Accounted, WithinClasses;
    forall d: Item | ItemGood(d) ensures Lost(d) <==> !Whole(d) {
    }
  }

  lemma LostStays(s: Dls, step: Step)
    requires Good(s) && SomeLost(s) && Enabled(s, step)
    ensures SomeLost(Next(s, step))
  {
    var r := Next(s, step);
    if exists i :: 0 <= i < |s.completed| && Lost(s.completed[i]) {
      var i :| 0 <= i < |s.completed| && Lost(s.completed[i]);
      assert r.completed[i] == s.completed[i];
    } else {
      var i :| 0 <= i < |s.current| && Lost(s.current[i]);
      LostItemStays(s, step, i);
    }
  }

  lemma LostItemStays(s: Dls, step: Step, i: nat)
    requires Enabled(s, step) && i < |s.current| && Lost(s.current[i])
    ensures SomeLost(Next(s, step))
  {
    var r := Next(s, step);
    match step {
      case Enqueue(_, _) => assert Lost(r.current[i]);
      case Admit => assert Lost(r.current[i]);
      case Done(k, true) =>
        if k == i {
          assert Lost(r.completed[|s.completed|]);
        } else {
          assert Lost(r.current[if i < k then i else i - 1]);
        }
      case _ => assert Lost(r.current[i]);
    }
  }

  lemma {:induction false} RunStaysLost(s: Dls, steps: seq<Step>)
    requires Good(s) && SomeLost(s) && AllEnabled(s, steps)
    ensures SomeLost(Run(s, steps)) && Good(Run(s, steps))
    decreases |steps|
  {
    if steps == [] {
    } else {
      LostStays(s, steps[0]);
      NextGood(s, steps[0]);
      hide Next, Good, Enabled, SomeLost;
      RunStaysLost(Next(s, steps[0]), steps[1..]);
    }
  }

  lemma ShortWriteLoses(s: Dls, step: Step)
    requires Good(s) && Enabled(s, step) && step.Receive? && step.written != step.n
    ensures SomeLost(Next(s, step))
  {
    assert ItemGood(s.current[step.k]);
    assert Lost(Next(s, step).current[step.k]);
  }

  lemma {:induction false} RunWholeExactly(s: Dls, steps: seq<Step>)
    requires Good(s) && AllWhole(s) && AllEnabled(s, steps)
    ensures AllWhole(Run(s, steps)) <==> WritesComplete(steps)
    decreases |steps|
  {
    if steps == [] {
    } else {
      var step, r := steps[0], Next(s, steps[0]);
      NextGood(s, step);
      if step.Receive? && step.written != step.n {
        ShortWriteLoses(s, step);
        hide Next, Good, Enabled, SomeLost, AllWhole;
        RunStaysLost(r, steps[1..]);
        LostIsNotWhole(Run(r, steps[1..]));
      } else {
        StepWhole(s, step);
        hide Next, Good, Enabled, AllWhole;
        RunWholeExactly(r, steps[1..]);
        RestComplete(steps);
      }
    }
  }

  lemma RestComplete(steps: seq<Step>)
    requires steps != [] && (steps[0].Receive? ==> steps[0].written == steps[0].n)
    ensures WritesComplete(steps) <==> WritesComplete(steps[1..])
  {
    if WritesComplete(steps[1..]) {
      forall i | 0 <= i < |steps| && steps[i].Receive? ensures steps[i].written == steps[i].n {
        assert i > 0 ==> steps[1..][i - 1] == steps[i];
      }
    }
  }

  /** Over every run: all sinks hold exactly what was sent if and only if no write fell short. */
  lemma SinksWholeExactly(steps: seq<Step>)
    requires AllEnabled(EMPTY, steps)
    ensures AllWhole(Run(EMPTY, steps)) <==> WritesComplete(steps)
  {
    assert Good(EMPTY) && AllWhole(EMPTY);
    RunWholeExactly(EMPTY, steps);
  }

  /** A write that falls short is not noticed: the transfer is resumed behind the gap and completes without the
      lost byte. */
  lemma ShortWriteCompletes(a: byte, b: byte)
    ensures var steps := [Enqueue(2, [a, b]), Admit, Start(0, true), Receive(0, 1, 0), Broken(0, false, true),
                          Receive(0, 1, 1), Done(0, true)];
      AllEnabled(EMPTY, steps) &&
      var s := Run(EMPTY, steps);
      s.completedDownloads == 1 == s.numDownloads && |s.completed| == 1 && s.completed[0].remote == [a, b]
        && s.completed[0].sink == [b]
  {
    var d0 := NewItem(0, 2, [a, b]);
    var s0 := Next(EMPTY, Enqueue(2, [a, b]));
    assert s0.queue == [d0];
    var s1 := Next(s0, Admit);
    var s2 := Next(s1, Start(0, true));
    var d2 := s2.current[0];
    assert d2 == d0.(attempts := 1, handle := Active);
    var s3 := Next(s2, Receive(0, 1, 0));
    var d3 := s3.current[0];
    assert d3 == d2.(progress := 1) by { assert [a, b][0..0] == []; }
    var s4 := Next(s3, Broken(0, false, true));
    var d4 := s4.current[0];
    assert d4 == d3.(retries := 9, attempts := 2);
    var s5 := Next(s4, Receive(0, 1, 1));
    var d5 := s5.current[0];
    assert d5 == d4.(progress := 2, sink := [b]) by { assert [a, b][1..2] == [b]; }
    var s6 := Next(s5, Done(0, true));
    assert s6.completed == [d5];
    assert Enabled(s0, Admit) && Enabled(s1, Start(0, true)) && Enabled(s2, Receive(0, 1, 0))
      && Enabled(s3, Broken(0, false, true));
    assert Enabled(s4, Receive(0, 1, 1)) && Enabled(s5, Done(0, true)) && Enabled(EMPTY, Enqueue(2, [a, b]));
    assert d5.remote == [a, b] && s6.completedDownloads == s6.numDownloads == 1;
    hide *;
    var t6 := [Done(0, true)];
    var t5 := [Receive(0, 1, 1)] + t6;
    var t4 := [Broken(0, false, true)] + t5;
    var t3 := [Receive(0, 1, 0)] + t4;
    var t2 := [Start(0, true)] + t3;
    var t1 := [Admit] + t2;
    RunNone(s6);
    assert [Done(0, true)] + [] == t6;
    RunFirst(s5, Done(0, true), []);
    RunFirst(s4, Receive(0, 1, 1), t6);
    RunFirst(s3, Broken(0, false, true), t5);
    RunFirst(s2, Receive(0, 1, 0), t4);
    RunFirst(s1, Start(0, true), t3);
    RunFirst(s0, Admit, t2);
    RunFirst(EMPTY, Enqueue(2, [a, b]), t1);
    assert [Enqueue(2, [a, b])] + t1
      == [Enqueue(2, [a, b]), Admit, Start(0, true), Receive(0, 1, 0), Broken(0, false, true),
                                         Receive(0, 1, 1), Done(0, true)];
  }

  lemma RunNone(s: Dls)
    ensures AllEnabled(s, []) && Run(s, []) == s
  {}

  lemma RunFirst(s: Dls, step: Step, rest: seq<Step>)
    requires Enabled(s, step) && AllEnabled(Next(s, step), rest)
    ensures AllEnabled(s, [step] + rest) && Run(s, [step] + rest) == Run(Next(s, step), rest)
  {
    assert ([step] + rest)[1..] == rest;
  }

  // ---- The end of every run ----

  function Sum(items: seq<Item>, f: Item -> nat): nat {
    if items == [] then 0 else f(items[0]) + Sum(items[1..], f)
  }

  lemma {:induction false} SumAppend(a: seq<Item>, b: seq<Item>, f: Item -> nat)
    ensures Sum(a + b, f) == Sum(a, f) + Sum(b, f)
  {
    if a == [] {
      assert a + b == b;
    } else {
      assert (a + b)[1..] == a[1..] + b;
      SumAppend(a[1..], b, f);
    }
  }

  lemma SumAt(items: seq<Item>, k: nat, f: Item -> nat)
    requires k < |items|
    ensures Sum(items, f) == Sum(items[..k], f) + f(items[k]) + Sum(items[k + 1..], f)
  {
    assert items == items[..k] + ([items[k]] + items[k + 1..]);
    SumAppend(items[..k], [items[k]] + items[k + 1..], f);
    assert ([items[k]] + items[k + 1..])[1..] == items[k + 1..];
  }

  /** Replacing one item moves the sum by the difference; removing one takes its part away. */
  lemma SumReplaced(items: seq<Item>, k: nat, d: Item, f: Item -> nat)
    requires k < |items|
    ensures Sum(items[k := d], f) + f(items[k]) == Sum(items, f) + f(d)
    ensures Sum(items[..k] + items[k + 1..], f) + f(items[k]) == Sum(items, f)
  {
    SumAt(items, k, f);
    SumAt(items[k := d], k, f);
    assert items[k := d][..k] == items[..k] && items[k := d][k + 1..] == items[k + 1..];
    SumAppend(items[..k], items[k + 1..], f);
  }

  /** What an item can still do: bytes to receive, attempts to fail, states to leave. */
  function Rank(d: Item): nat {
    (if d.progress <= |d.remote| then |d.remote| - d.progress else 0) + 2 * d.retries
    + (match d.handle case Unstarted => 2 case Active => 1 case Ended => 0)
  }

  function QueueRank(d: Item): nat {
    Rank(d) + 1
  }

  function Measure(s: Dls): nat {
    Sum(s.queue, QueueRank) + Sum(s.current, Rank)
  }

  /** A step that changes something, other than queueing more. */
  predicate Productive(s: Dls, step: Step)
    requires Enabled(s, step)
  {
    match step
    case Enqueue(_, _) => false
    case Admit => Admissible(|s.current|, s.queue[0].size)
    case Start(_, canOpen) => canOpen
    case Receive(_, n, _) => n > 0
    case Done(_, _) => true
    case Broken(_, _, _) => true
  }

  lemma MeasureStep(s: Dls, step: Step)
    requires Enabled(s, step) && !step.Enqueue?
    ensures Measure(Next(s, step)) + (if Productive(s, step) then 1 else 0) <= Measure(s)
  {
    hide Sum, Measure;
    match step {
      case Admit => if Productive(s, step) { MeasureAdmitted(s); }
      case Start(k, _) => MeasureReplaced(s, Next(s, step), k);
      case Receive(k, _, _) => MeasureReplaced(s, Next(s, step), k);
      case Done(k, moved) => if moved { MeasureRemoved(s, k); } else { MeasureReplaced(s, Next(s, step), k); }
      case Broken(k, _, _) => MeasureReplaced(s, Next(s, step), k);
    }
  }

  lemma MeasureAdmitted(s: Dls)
    requires s.queue != [] && Admissible(|s.current|, s.queue[0].size)
    ensures Measure(Dequeue(s)) + 1 == Measure(s)
  {
    SumAppend(s.current, [s.queue[0]], Rank);
    assert Sum([s.queue[0]], Rank) == Rank(s.queue[0]);
    hide Rank;
  }

  lemma MeasureReplaced(s: Dls, r: Dls, k: nat)
    requires k < |s.current| == |r.current| && r.queue == s.queue && r.current == s.current[k := r.current[k]]
    ensures Measure(r) + Rank(s.current[k]) == Measure(s) + Rank(r.current[k])
  {
    SumReplaced(s.current, k, r.current[k], Rank);
  }

  lemma MeasureRemoved(s: Dls, k: nat)
    requires k < |s.current|
    ensures Measure(Succeed(s, k, true)) + Rank(s.current[k]) == Measure(s)
  {
    SumReplaced(s.current, k, s.current[k], Rank);
  }

  function ProductiveSteps(s: Dls, steps: seq<Step>): nat
    requires AllEnabled(s, steps)
    decreases |steps|
  {
    if steps == [] then 0 else
      (if Productive(s, steps[0]) then 1 else 0) + ProductiveSteps(Next(s, steps[0]), steps[1..])
  }

  /** Without new downloads only a bounded number of steps can do anything. */
  lemma {:induction false} BoundedWork(s: Dls, steps: seq<Step>)
    requires AllEnabled(s, steps) && forall i :: 0 <= i < |steps| ==> !steps[i].Enqueue?
    ensures ProductiveSteps(s, steps) + Measure(Run(s, steps)) <= Measure(s)
    decreases |steps|
  {
    if steps == [] {
    } else {
      MeasureStep(s, steps[0]);
      hide Next, Measure, Enabled, Productive;
      BoundedWork(Next(s, steps[0]), steps[1..]);
    }
  }

  /** Nothing fails: files open, pieces are written whole, transfers end well; and nothing more is queued. */
  predicate Smooth(step: Step) {
    match step
    case Enqueue(_, _) => false
    case Admit => true
    case Start(_, canOpen) => canOpen
    case Receive(_, n, written) => written == n
    case Done(_, moved) => moved
    case Broken(_, _, _) => false
  }

  /** Until an error ends it, the queue is never stuck: while anything is left, something can be done that is not a
      failure. */
  lemma NeverStuck(s: Dls)
    requires Good(s) && !s.error && s.queue + s.current != []
    ensures exists step :: Enabled(s, step) && Productive(s, step) && Smooth(step)
  {
    if s.current == [] {
      assert Productive(s, Admit);
    } else {
      var d := s.current[0];
      assert ItemGood(d);
      var step := if d.handle == Unstarted then Start(0, true)
                  else if d.progress < |d.remote| then Receive(0, 1, 1) else Done(0, true);
      assert Enabled(s, step) && Productive(s, step);
    }
  }

  ghost predicate AllSmooth(steps: seq<Step>) {
    forall i :: 0 <= i < |steps| ==> Smooth(steps[i])
  }

  lemma SmoothStep(s: Dls, step: Step)
    requires Enabled(s, step) && Smooth(step)
    ensures var r := Next(s, step);
      r.error == s.error && r.numDownloads == s.numDownloads && r.isDownloading == s.isDownloading
  {
  }

  /** Everything queued so far is complete, and if no byte was lost before, every sink holds its whole object. */
  ghost predicate Finished(s: Dls, r: Dls) {
    && !r.error && r.isDownloading && r.completedDownloads == |r.completed| == r.numDownloads == s.numDownloads
    && (AllWhole(s) ==> forall i :: 0 <= i < |r.completed| ==> r.completed[i].sink == r.completed[i].remote)
  }

  /** Whatever has happened, short of an error and as long as the queue is marked as downloading: if nothing fails any
      more, all downloads can complete. */
  lemma CanComplete(s: Dls)
    requires Good(s) && !s.error && s.isDownloading
    ensures exists steps :: AllSmooth(steps) && AllEnabled(s, steps) && Finished(s, Run(s, steps))
  {
    var steps := StepsToEnd(s);
    var r := Run(s, steps);
    RunGood(s, steps);
    if AllWhole(s) {
      RunWhole(s, steps);
      forall i | 0 <= i < |r.completed| ensures r.completed[i].sink == r.completed[i].remote {
        assert Whole(r.completed[i]) && r.completed[i].progress == |r.completed[i].remote|;
      }
    }
    assert Finished(s, r);
  }

  lemma {:induction false} StepsToEnd(s: Dls) returns (steps: seq<Step>)
    requires Good(s) && !s.error
    ensures AllSmooth(steps) && AllEnabled(s, steps)
    ensures var r := Run(s, steps);
      !r.error && r.queue + r.current == [] && r.numDownloads == s.numDownloads && r.isDownloading == s.isDownloading
    decreases Measure(s)
  {
    if s.queue + s.current == [] {
      steps := [];
    } else {
      NeverStuck(s);
      var step :| Enabled(s, step) && Productive(s, step) && Smooth(step);
      NextGood(s, step);
      MeasureStep(s, step);
      SmoothStep(s, step);
      hide Next, Good, Enabled, Measure, Productive;
      var rest := StepsToEnd(Next(s, step));
      RunFirst(s, step, rest);
      steps := [step] + rest;
    }
  }

  /** The bytes counted for the progress bar are the bytes received by all downloads together. */
  function Received(d: Item): nat {
    d.progress
  }

  predicate BytesCounted(s: Dls) {
    s.completedSize == Sum(s.current, Received) + Sum(s.completed, Received)
  }

  lemma BytesCountedStep(s: Dls, step: Step)
    requires Good(s) && BytesCounted(s) && Enabled(s, step)
    ensures BytesCounted(Next(s, step))
  {
    hide WithinClasses, ItemsGood, Sum;
    match step {
      case Enqueue(_, _) =>
      case Admit =>
        assert Received(s.queue[0]) == 0;
        hide Accounted;
        SumAppend(s.current, [s.queue[0]], Received);
        SumOne(s.queue[0], Received);
      case Done(k, moved) =>
        hide Accounted;
        SumReplaced(s.current, k, s.current[k].(handle := Ended), Received);
        SumAppend(s.completed, [s.current[k]], Received);
        SumOne(s.current[k], Received);
      case Start(k, _) => hide Accounted; BytesReplaced(s, Next(s, step), k);
      case Receive(k, _, _) => hide Accounted; BytesReplaced(s, Next(s, step), k);
      case Broken(k, _, _) => hide Accounted; BytesReplaced(s, Next(s, step), k);
    }
  }

  lemma SumOne(d: Item, f: Item -> nat)
    ensures Sum([d], f) == f(d)
  {}

  lemma BytesReplaced(s: Dls, r: Dls, k: nat)
    requires k < |s.current| == |r.current| && r.completed == s.completed && r.current == s.current[k := r.current[k]]
    requires BytesCounted(s) && r.completedSize + s.current[k].progress == s.completedSize + r.current[k].progress
    ensures BytesCounted(r)
  {
    SumReplaced(s.current, k, r.current[k], Received);
  }

  lemma {:induction false} BytesAlwaysCounted(s: Dls, steps: seq<Step>)
    requires Good(s) && BytesCounted(s) && AllEnabled(s, steps)
    ensures BytesCounted(Run(s, steps))
    decreases |steps|
  {
    if steps == [] {
    } else {
      BytesCountedStep(s, steps[0]);
      NextGood(s, steps[0]);
      hide Next, Good, Enabled, BytesCounted;
      BytesAlwaysCounted(Next(s, steps[0]), steps[1..]);
    }
  }

  /** A mega-huge file and nothing else is running. */
  predicate MegaAlone(s: Dls) {
    |s.current| == 1 && s.current[0].size > MEGA_HUGE_SIZE
  }

  /** Beside it exactly another mega-huge file is kept out. */
  lemma MegaKeepsOut(s: Dls)
    requires MegaAlone(s) && s.queue != []
    ensures Dequeue(s) == s <==> s.queue[0].size > MEGA_HUGE_SIZE
  {
    if s.queue[0].size <= MEGA_HUGE_SIZE {
      assert |Dequeue(s).current| == 2;
    }
  }

  /** Nothing runs beside the first file until it has ended. */
  predicate StaysAlone(s: Dls, steps: seq<Step>)
    requires AllEnabled(s, steps)
    decreases |steps|
  {
    s.current == [] || (|s.current| == 1 && (steps == [] || StaysAlone(Next(s, steps[0]), steps[1..])))
  }

  /** Until the running files have ended, every admission finds a mega-huge file at the head of the queue. */
  predicate MegaHeads(s: Dls, steps: seq<Step>)
    requires AllEnabled(s, steps)
    decreases |steps|
  {
    s.current == [] || steps == [] || (
      && (steps[0].Admit? ==> s.queue[0].size > MEGA_HUGE_SIZE)
      && MegaHeads(Next(s, steps[0]), steps[1..]))
  }

  /** In every run a mega-huge file is the only one running until it ends exactly when whatever is tried to be
      admitted meanwhile is mega-huge as well. */
  lemma {:induction false} MegaAloneExactly(s: Dls, steps: seq<Step>)
    requires MegaAlone(s) && AllEnabled(s, steps)
    ensures StaysAlone(s, steps) <==> MegaHeads(s, steps)
    decreases |steps|
  {
    if steps == [] {
    } else {
      var r := Next(s, steps[0]);
      if steps[0].Admit? {
        MegaKeepsOut(s);
        if s.queue[0].size <= MEGA_HUGE_SIZE {
          assert |r.current| == 2;
        } else {
          MegaAloneExactly(r, steps[1..]);
        }
      } else {
        assert r.current == [] || MegaAlone(r);
        if r.current != [] {
          MegaAloneExactly(r, steps[1..]);
        }
      }
    }
  }

  /** A mega-huge file is only let in alone, but others join it: it need not stay the only one. */
  lemma MegaHugeNotAlone()
    ensures var steps := [Enqueue(MEGA_HUGE_SIZE + 1, []), Enqueue(1, []), Admit, Admit];
      AllEnabled(EMPTY, steps) &&
      var s := Run(EMPTY, steps); |s.current| == 2 && s.current[0].size > MEGA_HUGE_SIZE
  {
    var steps := [Enqueue(MEGA_HUGE_SIZE + 1, []), Enqueue(1, []), Admit, Admit];
    var s1 := Next(EMPTY, steps[0]);
    var s2 := Next(s1, steps[1]);
    var a, b := NewItem(0, MEGA_HUGE_SIZE + 1, []), NewItem(1, 1, []);
    assert s2.queue == [a, b];
    var s3 := Next(s2, steps[2]);
    assert s3.queue == [b] && s3.current == [a];
    var s4 := Next(s3, steps[3]);
    assert s4.current == [a, b];
    hide Next, Enabled;
    RunFirst(s3, Admit, []);
    RunFirst(s2, Admit, [Admit]);
    RunFirst(s1, steps[1], [Admit] + [Admit]);
    RunFirst(EMPTY, steps[0], [steps[1]] + ([Admit] + [Admit]));
    assert steps == [steps[0]] + ([steps[1]] + ([Admit] + [Admit]));
    assert [Admit] + [] == [Admit];
  }

  // ---- One call of DL_Process ----

  /** Every running download without a handle gets one; `opens` says whose file can be opened. */
  function InitAll(s: Dls, opens: seq<bool>, k: nat): Dls
    requires |opens| == |s.current|
    decreases |s.current| - k
  {
    if k >= |s.current| then s else
      InitAll(if s.current[k].handle == Unstarted then Init(s, k, opens[k]) else s, opens, k + 1)
  }

  /** The event makes DL_ProcessDownload give up. */
  predicate IsFatal(s: Dls, event: Step)
    requires Enabled(s, event)
  {
    match event
    case Done(_, moved) => !moved
    case Broken(k, refused, _) => refused || s.current[k].retries == 0
    case _ => false
  }

  /** What curl reports: pieces received and transfers that end, up to a fatal one. */
  predicate Reported(s: Dls, events: seq<Step>)
    decreases |events|
  {
    events == [] || (
      && (events[0].Receive? || events[0].Done? || events[0].Broken?)
      && Enabled(s, events[0])
      && (!IsFatal(s, events[0]) ==> Reported(Next(s, events[0]), events[1..])))
  }

  function HandleEvents(s: Dls, events: seq<Step>): (Dls, bool)
    requires Reported(s, events)
    decreases |events|
  {
    if events == [] then (s, true)
    else if IsFatal(s, events[0]) then (Next(s, events[0]), false)
    else HandleEvents(Next(s, events[0]), events[1..])
  }

  /** The events fit the running downloads once those without a handle have got one. */
  predicate Scripted(s: Dls, opens: seq<bool>, events: seq<Step>) {
    |opens| == |s.current| && Reported(InitAll(s, opens, 0), events)
  }

  /** DL_Process: the new state, and whether the caller is told that the queue is done. */
  function Tick(s: Dls, opens: seq<bool>, events: seq<Step>): (Dls, bool)
    requires Scripted(s, opens, events)
  {
    if !s.isDownloading then (s, true) else
    var (t, ok) := if s.current == [] then (s, true) else HandleEvents(InitAll(s, opens, 0), events);
    if !ok then (t, true) else
    var u := if t.queue == [] then t else Dequeue(t);
    (u, u.queue == [] && u.current == [])
  }

  lemma {:induction false} InitAllGood(s: Dls, opens: seq<bool>, k: nat)
    requires Good(s) && |opens| == |s.current|
    ensures Good(InitAll(s, opens, k)) && InitAll(s, opens, k).error == s.error
    decreases |s.current| - k
  {
    hide Good;
    if k < |s.current| {
      if s.current[k].handle == Unstarted {
        InitGood(s, k, opens[k]);
        InitAllGood(Init(s, k, opens[k]), opens, k + 1);
      } else {
        InitAllGood(s, opens, k + 1);
      }
    }
  }

  lemma {:induction false} HandleEventsGood(s: Dls, events: seq<Step>)
    requires Good(s) && Reported(s, events)
    ensures var (r, ok) := HandleEvents(s, events);
      Good(r) && (if ok then r.error == s.error else r.error)
    decreases |events|
  {
    if events == [] {
    } else {
      NextGood(s, events[0]);
      hide Good;
      if !IsFatal(s, events[0]) {
        HandleEventsGood(Next(s, events[0]), events[1..]);
      }
    }
  }

  /** Every call keeps the invariants. While the queue is marked as downloading it reports the end exactly when an
      error ended it or everything is complete. */
  lemma ProcessDone(s: Dls, opens: seq<bool>, events: seq<Step>)
    requires Good(s) && Scripted(s, opens, events)
    ensures var (r, done) := Tick(s, opens, events);
      && Good(r)
      && (s.isDownloading && !s.error ==> (done <==> r.error || r.completedDownloads == r.numDownloads))
  {
    InitAllGood(s, opens, 0);
    HandleEventsGood(InitAll(s, opens, 0), events);
    var (t, ok) := if s.current == [] then (s, true) else HandleEvents(InitAll(s, opens, 0), events);
    if ok && t.queue != [] {
      AdmittedGood(t);
    }
    hide HandleEvents, InitAll, WithinClasses, ItemsGood;
  }

  /** The end is reported without an error while downloads are left exactly when the queue was no longer marked as
      downloading before the call. */
  lemma QuietEndExactly(s: Dls, opens: seq<bool>, events: seq<Step>)
    requires Good(s) && !s.error && Scripted(s, opens, events)
    ensures var (r, done) := Tick(s, opens, events);
      (done && !r.error && r.completedDownloads < r.numDownloads) <==>
        (!s.isDownloading && s.completedDownloads < s.numDownloads)
  {
    ProcessDone(s, opens, events);
    assert Accounted(s);
    hide HandleEvents, InitAll, WithinClasses, ItemsGood;
  }

  /** A file could not be opened, for the first attempt or for a retry. */
  predicate FailsToOpen(step: Step) {
    (step.Start? || step.Broken?) && !step.canOpen
  }

  predicate Enqueues(steps: seq<Step>) {
    exists i :: 0 <= i < |steps| && steps[i].Enqueue?
  }

  /** A file could not be opened, and nothing has been queued since. */
  predicate OpenFailedLast(steps: seq<Step>) {
    exists i :: 0 <= i < |steps| && FailsToOpen(steps[i]) && !Enqueues(steps[i + 1..])
  }

  lemma EnqueuesFirst(steps: seq<Step>)
    requires steps != []
    ensures Enqueues(steps) <==> steps[0].Enqueue? || Enqueues(steps[1..])
  {
    if Enqueues(steps[1..]) {
      var i :| 0 <= i < |steps[1..]| && steps[1..][i].Enqueue?;
      assert steps[i + 1].Enqueue?;
    }
    if Enqueues(steps) && !steps[0].Enqueue? {
      var i :| 0 <= i < |steps| && steps[i].Enqueue?;
      assert steps[1..][i - 1].Enqueue?;
    }
  }

  lemma OpenFailedFirst(steps: seq<Step>)
    requires steps != []
    ensures OpenFailedLast(steps) <==> OpenFailedLast(steps[1..]) || (FailsToOpen(steps[0]) && !Enqueues(steps[1..]))
  {
    if OpenFailedLast(steps[1..]) {
      var i :| 0 <= i < |steps[1..]| && FailsToOpen(steps[1..][i]) && !Enqueues(steps[1..][i + 1..]);
      assert steps[1..][i + 1..] == steps[i + 1 + 1..] && FailsToOpen(steps[i + 1]);
    }
    if OpenFailedLast(steps) {
      var i :| 0 <= i < |steps| && FailsToOpen(steps[i]) && !Enqueues(steps[i + 1..]);
      if i > 0 {
        assert steps[1..][i - 1 + 1..] == steps[i + 1..] && FailsToOpen(steps[1..][i - 1]);
      }
    }
  }

  lemma {:induction false} ErrorStays(s: Dls, steps: seq<Step>)
    requires s.error && AllEnabled(s, steps)
    ensures Run(s, steps).error
    decreases |steps|
  {
    if steps == [] {
    } else {
      ErrorStays(Next(s, steps[0]), steps[1..]);
    }
  }

  lemma {:induction false} NothingQueued(s: Dls, steps: seq<Step>)
    requires AllEnabled(s, steps) && !Enqueues(steps)
    ensures Run(s, steps).numDownloads == s.numDownloads
    decreases |steps|
  {
    if steps == [] {
    } else {
      EnqueuesFirst(steps);
      hide Enqueues;
      NothingQueued(Next(s, steps[0]), steps[1..]);
    }
  }

  /** Without an error the queue is marked as downloading unless the last word is a file that could not be opened. */
  lemma {:induction false} MarkAfter(s: Dls, steps: seq<Step>)
    requires AllEnabled(s, steps) && !Run(s, steps).error
    ensures Run(s, steps).isDownloading <==> !OpenFailedLast(steps) && (Enqueues(steps) || s.isDownloading)
    decreases |steps|
  {
    if steps == [] {
    } else {
      var r := Next(s, steps[0]);
      EnqueuesFirst(steps);
      OpenFailedFirst(steps);
      hide OpenFailedLast, Enqueues;
      if r.error {
        ErrorStays(r, steps[1..]);
      }
      MarkAfter(r, steps[1..]);
    }
  }

  /** Over every run that has met no error: DL_Process reports the end with downloads left exactly when there are
      downloads left and a file could not be opened since the last one was queued. */
  lemma QuietEndAfterFailedOpen(steps: seq<Step>, opens: seq<bool>, events: seq<Step>)
    requires AllEnabled(EMPTY, steps) && !Run(EMPTY, steps).error && Scripted(Run(EMPTY, steps), opens, events)
    ensures var s := Run(EMPTY, steps);
      var (r, done) := Tick(s, opens, events);
      (done && !r.error && r.completedDownloads < r.numDownloads) <==>
        (s.completedDownloads < s.numDownloads && OpenFailedLast(steps))
  {
    var s := Run(EMPTY, steps);
    assert Good(EMPTY);
    RunGood(EMPTY, steps);
    MarkAfter(EMPTY, steps);
    if !Enqueues(steps) {
      NothingQueued(EMPTY, steps);
    }
    hide Run, AllEnabled, OpenFailedLast, Enqueues, Tick, Good, Scripted;
    QuietEndExactly(s, opens, events);
  }

  /** One file that cannot be opened brings this about: the first call goes on, the second reports the end, and the
      download has not happened. */
  lemma UnopenedFileEndsQuietly(size: int, remote: seq<byte>)
    ensures var s := Next(Next(EMPTY, Enqueue(size, remote)), Admit);
      && Good(s) && Scripted(s, [false], [])
      && var (r, done) := Tick(s, [false], []);
      && !done && Scripted(r, [true], [])
      && var (r2, done2) := Tick(r, [true], []);
      && done2 && !r2.error && r2.completedDownloads == 0 && r2.numDownloads == 1
  {
    var d := NewItem(0, size, remote);
    var q := Next(EMPTY, Enqueue(size, remote));
    assert Good(EMPTY);
    NextGood(EMPTY, Enqueue(size, remote));
    NextGood(q, Admit);
    hide Good;
    var s := Dls([], [d], 1, 0, size, 0, true, false, [0], []);
    assert Next(q, Admit) == s;
    hide Next;
    var r := s.(isDownloading := false);
    InitUnopened(s);
    assert Scripted(s, [false], []) && Tick(s, [false], []) == (r, false) by { hide InitAll; }
    assert Scripted(r, [true], []) && Tick(r, [true], []) == (r, true) by { hide InitAll; }
  }

  lemma InitUnopened(s: Dls)
    requires |s.current| == 1 && s.current[0].handle == Unstarted
    ensures InitAll(s, [false], 0) == s.(isDownloading := false)
  {
    var r := Init(s, 0, false);
    assert InitAll(s, [false], 0) == InitAll(r, [false], 1);
  }

  // ---- The functions of the source, on their global state ----

  class DownloadQueue {
    var queue: seq<Item>
    var current: seq<Item>
    var numDownloads: nat
    var completedDownloads: nat
    var totalSize: int
    var completedSize: nat
    var isDownloading: bool
    var error: bool
    ghost var admitted: seq<nat>
    ghost var completed: seq<Item>

    ghost function View(): Dls
      reads this
    {
      Dls(queue, current, numDownloads, completedDownloads, totalSize, completedSize, isDownloading, error, admitted,
          completed)
    }

    /** CL_InitDownloadQueue */
    constructor ()
      ensures View() == EMPTY
    {
      queue, current := [], [];
      numDownloads, completedDownloads, totalSize, completedSize := 0, 0, 0, 0;
      isDownloading, error := false, false;
      admitted, completed := [], [];
    }

    /** CL_QueueDownload */
    method QueueDownload(size: int, remote: seq<byte>)
      modifies this
      ensures View() == Queue(old(View()), size, remote)
    {
      queue := queue + [NewItem(numDownloads, size, remote)];
      numDownloads, totalSize, isDownloading := numDownloads + 1, totalSize + size, true;
    }

    /** DL_DequeueDownload */
    method DequeueDownload()
      requires queue != []
      modifies this
      ensures View() == Dequeue(old(View()))
    {
      var download := queue[0];
      if |current| >= MAX_CONCURRENT_DOWNLOADS {
        return;
      }
      if |current| >= MAX_CONCURRENT_DOWNLOADS_HUGE && download.size > HUGE_SIZE {
        return;
      }
      if |current| >= 1 && download.size > MEGA_HUGE_SIZE {
        return;
      }
      current, queue := current + [download], queue[1..];
      admitted := admitted + [download.id];
    }

    /** initCurlDownload */
    method InitDownload(k: nat, canOpen: bool) returns (ok: bool)
      requires k < |current|
      modifies this
      ensures View() == Init(old(View()), k, canOpen) && ok == canOpen
    {
      if !canOpen {
        isDownloading := false;
        return false;
      }
      var d := current[k];
      current := current[k := d.(sink := if d.progress == 0 then [] else d.sink, attempts := d.attempts + 1,
                                 handle := Active)];
      ok := true;
    }

    /** DL_WriteToFile, with the piece received and how much of it the file takes. */
    method WriteToFile(k: nat, piece: seq<byte>, written: nat)
      requires k < |current| && written <= |piece| && current[k].progress + |piece| <= |current[k].remote|
      requires piece == current[k].remote[current[k].progress..current[k].progress + |piece|]
      modifies this
      ensures View() == Write(old(View()), k, |piece|, written)
    {
      var d := current[k];
      assert piece[..written] == d.remote[d.progress..d.progress + written];
      current := current[k := d.(sink := d.sink + piece[..written], progress := d.progress + |piece|)];
      completedSize := completedSize + |piece|;
    }

    /** onSuccess: false when the file cannot be moved into place. */
    method OnSuccess(k: nat, moved: bool) returns (ok: bool)
      requires k < |current|
      modifies this
      ensures View() == Succeed(old(View()), k, moved) && ok == moved
    {
      if !moved {
        current := current[k := current[k].(handle := Ended)];
        isDownloading, error := false, true;
        return false;
      }
      completed := completed + [current[k]];
      completedDownloads, current := completedDownloads + 1, current[..k] + current[k + 1..];
      ok := true;
    }

    /** The failure branch of DL_ProcessDownload: false when there is no retry. */
    method OnFailure(k: nat, refused: bool, canOpen: bool) returns (ok: bool)
      requires k < |current|
      modifies this
      ensures View() == Fail(old(View()), k, refused, canOpen)
      ensures ok <==> !refused && old(current[k].retries) > 0
    {
      var shouldRetry := false;
      if !refused {
        if current[k].retries > 0 {
          current := current[k := current[k].(retries := current[k].retries - 1)];
          shouldRetry := true;
        }
      }
      if !shouldRetry {
        current := current[k := current[k].(handle := Ended)];
        isDownloading, error := false, true;
        return false;
      }
      current := current[k := current[k].(handle := Unstarted)];
      var _ := InitDownload(k, canOpen);
      ok := true;
    }

    /** The first loop of DL_ProcessDownload. */
    method InitDownloads(opens: seq<bool>)
      requires |opens| == |current|
      modifies this
      ensures View() == InitAll(old(View()), opens, 0)
    {
      var k := 0;
      while k < |current|
        invariant k <= |current| == |opens|
        invariant InitAll(View(), opens, k) == InitAll(old(View()), opens, 0)
      {
        if current[k].handle == Unstarted {
          var _ := InitDownload(k, opens[k]);
        }
        k := k + 1;
      }
    }

    /** One thing curl reports. */
    method HandleEvent(event: Step) returns (ok: bool)
      requires Reported(View(), [event])
      modifies this
      ensures View() == Next(old(View()), event) && (ok <==> !IsFatal(old(View()), event))
    {
      match event {
        case Receive(k, n, written) =>
          WriteToFile(k, current[k].remote[current[k].progress..current[k].progress + n], written);
          ok := true;
        case Done(k, moved) =>
          ok := OnSuccess(k, moved);
        case Broken(k, refused, canOpen) =>
          ok := OnFailure(k, refused, canOpen);
      }
    }

    /** DL_ProcessDownload */
    method ProcessDownload(opens: seq<bool>, events: seq<Step>) returns (ok: bool)
      requires Scripted(View(), opens, events)
      modifies this
      ensures (View(), ok) ==
        if old(current) == [] then (old(View()), true) else HandleEvents(InitAll(old(View()), opens, 0), events)
    {
      if current == [] {
        return true;
      }
      InitDownloads(opens);
      var i := 0;
      while i < |events|
        invariant i <= |events| && Reported(View(), events[i..])
        invariant HandleEvents(View(), events[i..]) == HandleEvents(InitAll(old(View()), opens, 0), events)
      {
        assert events[i..][0] == events[i] && events[i..][1..] == events[i + 1..];
        assert Reported(View(), [events[i]]);
        var done := HandleEvent(events[i]);
        if !done {
          return false;
        }
        i := i + 1;
      }
      ok := true;
    }

    /** DL_Process: true tells the caller that there is nothing left to do. */
    method Process(opens: seq<bool>, events: seq<Step>) returns (done: bool)
      requires Scripted(View(), opens, events)
      modifies this
      ensures (View(), done) == Tick(old(View()), opens, events)
    {
      if !isDownloading {
        return true;
      }
      if current != [] {
        var ok := ProcessDownload(opens, events);
        if !ok {
          return true;
        }
      }
      if |queue| > 0 {
        DequeueDownload();
      }
      done := queue == [] && current == [];
    }
  }
}
