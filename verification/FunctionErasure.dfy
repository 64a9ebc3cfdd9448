/** fu2::function: ownership of the boxed callable through the vtable commands and the operations built on
    them. A wrapper stores a small box in place and a large one behind a pointer. */
module FunctionErasure {

  import opened Options

  type BoxId = nat
  type WrapperId = nat

  /** A callable together with its allocator, and what it takes to store it. */
  datatype Box = Box(callable: nat, size: nat)

  /** A live box; holder records, for the proofs, the wrapper it was last given to. */
  datatype Live = Live(box: Box, holder: WrapperId)

  /** Which command function the vtable points to. */
  datatype Cmd = Empty | Inplace | Allocated

  /** storage is the box held in place or pointed to; it means nothing when the vtable is empty. */
  datatype Wrapper = Wrapper(capacity: nat, cmd: Cmd, storage: BoxId)

  /** boxes are the live ones, destroyed lists the others in the order their destructors ran. */
  datatype World = World(wrappers: map<WrapperId, Wrapper>, boxes: map<BoxId, Live>, destroyed: seq<BoxId>, next: BoxId)

  /** Whether a box of this size and alignment can be placed in a storage of the given capacity. */
  type Fits = (Box, nat) -> bool

  // ---- The vtable commands ----

  /** A wrapper may be used as a source: what it claims to hold is alive. */
  predicate Alive(w: World, i: WrapperId) {
    i in w.wrappers && (w.wrappers[i].cmd == Empty || w.wrappers[i].storage in w.boxes)
  }

  function SetCmd(w: World, i: WrapperId, cmd: Cmd, storage: BoxId): World
    requires i in w.wrappers
  {
    w.(wrappers := w.wrappers[i := w.wrappers[i].(cmd := cmd, storage := storage)])
  }

  /** construct: a new box in place when it fits, otherwise allocated. */
  function Construct(fits: Fits, w: World, to: WrapperId, box: Box): World
    requires to in w.wrappers
  {
    SetCmd(w.(boxes := w.boxes[w.next := Live(box, to)], next := w.next + 1),
           to, if fits(box, w.wrappers[to].capacity) then Inplace else Allocated, w.next)
  }

  function DestroyBox(w: World, b: BoxId): World {
    w.(boxes := w.boxes - {b}, destroyed := w.destroyed + [b])
  }

  /** op_weak_destroy: the vtable keeps pointing at the destroyed box. */
  function WeakDestroy(w: World, i: WrapperId): World
    requires Alive(w, i)
  {
    if w.wrappers[i].cmd == Empty then w else DestroyBox(w, w.wrappers[i].storage)
  }

  /** op_destroy */
  function Destroy(w: World, i: WrapperId): World
    requires Alive(w, i)
  {
    if w.wrappers[i].cmd == Empty then w else SetCmd(WeakDestroy(w, i), i, Empty, 0)
  }

  /** The pointer to an allocated box is copied to another wrapper. */
  function Steal(w: World, b: BoxId, to: WrapperId): World
    requires b in w.boxes && to in w.wrappers
  {
    SetCmd(w.(boxes := w.boxes[b := Live(w.boxes[b].box, to)]), to, Allocated, b)
  }

  /** op_move: steal the pointer, or move-construct a new box and destroy the old one; the source becomes empty. */
  function Move(fits: Fits, w: World, from: WrapperId, to: WrapperId): World
    requires Alive(w, from) && to in w.wrappers
  {
    var b := w.wrappers[from].storage;
    var moved :=
      match w.wrappers[from].cmd
      case Empty => SetCmd(w, to, Empty, 0)
      case Allocated => Steal(w, b, to)
      case Inplace => DestroyBox(Construct(fits, w, to, w.boxes[b].box), b);
    SetCmd(moved, from, Empty, 0)
  }

  /** op_copy */
  function Copy(fits: Fits, w: World, from: WrapperId, to: WrapperId): World
    requires Alive(w, from) && to in w.wrappers
  {
    if w.wrappers[from].cmd == Empty then SetCmd(w, to, Empty, 0)
    else Construct(fits, w, to, w.boxes[w.wrappers[from].storage].box)
  }

  // ---- Constructors, assignments, swap, destructor ----

  /** Room for a wrapper whose fields hold nothing yet. */
  function Raw(w: World, i: WrapperId, capacity: nat): World {
    w.(wrappers := w.wrappers[i := Wrapper(capacity, Empty, 0)])
  }

  function NewFrom(fits: Fits, w: World, i: WrapperId, capacity: nat, callable: Option<Box>): World {
    match callable
    case None => Raw(w, i, capacity)
    case Some(box) => Construct(fits, Raw(w, i, capacity), i, box)
  }

  /** Moving leaves the source empty, copying leaves it as it is. */
  datatype How = ByMove | ByCopy

  function Transfer(fits: Fits, w: World, how: How, from: WrapperId, to: WrapperId): World
    requires Alive(w, from) && to in w.wrappers
  {
    match how
    case ByMove => Move(fits, w, from, to)
    case ByCopy => Copy(fits, w, from, to)
  }

  /** The move and the copy constructor. */
  function ConstructFrom(fits: Fits, w: World, how: How, i: WrapperId, capacity: nat, from: WrapperId): World
    requires Alive(w, from) && i !in w.wrappers
  {
    Transfer(fits, Raw(w, i, capacity), how, from, i)
  }

  function Destruct(w: World, i: WrapperId): World
    requires Alive(w, i)
  {
    var d := WeakDestroy(w, i);
    d.(wrappers := d.wrappers - {i})
  }

  /** Assigning a callable; one that converts to false clears the wrapper. */
  function Assign(fits: Fits, w: World, to: WrapperId, callable: Option<Box>): World
    requires Alive(w, to)
  {
    match callable
    case None => Destroy(w, to)
    case Some(box) => Construct(fits, WeakDestroy(w, to), to, box)
  }

  /** The source of an assignment must still be alive once the target's box has been destroyed. */
  predicate Assignable(w: World, to: WrapperId, from: WrapperId) {
    Alive(w, to) && Alive(WeakDestroy(w, to), from)
  }

  /** The move and the copy assignment; nothing guards against assigning a wrapper to itself. */
  function AssignFrom(fits: Fits, w: World, how: How, to: WrapperId, from: WrapperId): World
    requires Assignable(w, to, from)
  {
    Transfer(fits, WeakDestroy(w, to), how, from, to)
  }

  // ---- Ownership ----

  /** The wrappers that hold a box; those in `raw` are about to be overwritten and hold nothing. */
  predicate Holds(w: World, raw: set<WrapperId>, i: WrapperId) {
    i in w.wrappers && i !in raw && w.wrappers[i].cmd != Empty
  }

  /** Every wrapper that holds something holds a live box that is its own, every live box is held, boxes held
      in place fit, and every box ever made is either live or was destroyed once. */
  ghost predicate Owned(fits: Fits, w: World, raw: set<WrapperId>) {
    && (forall i :: Holds(w, raw, i) ==> w.wrappers[i].storage in w.boxes && w.boxes[w.wrappers[i].storage].holder == i)
    && (forall b :: b in w.boxes ==> Holds(w, raw, w.boxes[b].holder) && w.wrappers[w.boxes[b].holder].storage == b)
    && (forall i :: Holds(w, raw, i) && w.wrappers[i].cmd == Inplace && w.wrappers[i].storage in w.boxes ==>
          fits(w.boxes[w.wrappers[i].storage].box, w.wrappers[i].capacity))
    && DestroyedOnce(w)
  }

  ghost predicate DestroyedOnce(w: World) {
    && (forall i, j :: 0 <= i < j < |w.destroyed| ==> w.destroyed[i] != w.destroyed[j])
    && (forall b :: b in w.destroyed ==> b !in w.boxes)
    && (forall b: BoxId :: b < w.next <==> b in w.boxes || b in w.destroyed)
  }

  /** Exactly one wrapper holds a live box. */
  lemma ExactlyOneOwner(fits: Fits, w: World, b: BoxId)
    requires Owned(fits, w, {}) && b in w.boxes
    ensures exists i :: Holds(w, {}, i) && w.wrappers[i].storage == b
    ensures forall i, j ::
      Holds(w, {}, i) && Holds(w, {}, j) && w.wrappers[i].storage == b == w.wrappers[j].storage ==> i == j
  {
    assert Holds(w, {}, w.boxes[b].holder);
  }

  /** What calling the wrapper would call. */
  function Content(w: World, i: WrapperId): Option<Box>
    requires Alive(w, i)
  {
    if w.wrappers[i].cmd == Empty then None else Some(w.boxes[w.wrappers[i].storage].box)
  }

  /** A wrapper keeps what it holds from w to r. */
  ghost predicate Untouched(w: World, r: World, i: WrapperId) {
    i in w.wrappers && i in r.wrappers && w.wrappers[i] == r.wrappers[i]
    && (w.wrappers[i].cmd != Empty && w.wrappers[i].storage in w.boxes ==>
          w.wrappers[i].storage in r.boxes && r.boxes[w.wrappers[i].storage].box == w.boxes[w.wrappers[i].storage].box)
  }

  ghost predicate OthersUntouched(w: World, r: World, except: set<WrapperId>) {
    forall i :: i in w.wrappers && i !in except ==> Untouched(w, r, i)
  }

  lemma DestroyOnce(w: World, b: BoxId)
    requires DestroyedOnce(w) && b in w.boxes
    ensures DestroyedOnce(DestroyBox(w, b))
  {
    var r := DestroyBox(w, b);
    forall c: BoxId ensures c < r.next <==> c in r.boxes || c in r.destroyed {
      assert c in r.destroyed <==> c in w.destroyed || c == b;
    }
  }

  /** An empty wrapper may be treated as raw. */
  lemma EmptyIsRaw(fits: Fits, w: World, raw: set<WrapperId>, i: WrapperId)
    requires Owned(fits, w, raw) && i in w.wrappers && (i in raw || w.wrappers[i].cmd == Empty)
    ensures Owned(fits, w, raw + {i})
  {
    assert forall j :: Holds(w, raw + {i}, j) <==> Holds(w, raw, j);
  }

  /** A raw wrapper that is set to empty is a wrapper again. */
  lemma SetEmptyOwned(fits: Fits, w: World, raw: set<WrapperId>, i: WrapperId)
    requires Owned(fits, w, raw + {i}) && i in w.wrappers && i !in raw
    ensures Owned(fits, SetCmd(w, i, Empty, 0), raw) && OthersUntouched(w, SetCmd(w, i, Empty, 0), {i})
  {
    assert forall j :: Holds(SetCmd(w, i, Empty, 0), raw, j) <==> Holds(w, raw + {i}, j);
  }

  /** Destroying what wrapper i holds leaves i raw; every other wrapper is untouched. */
  lemma WeakDestroyOwned(fits: Fits, w: World, raw: set<WrapperId>, i: WrapperId)
    requires Owned(fits, w, raw) && i in w.wrappers && i !in raw && Alive(w, i)
    ensures Owned(fits, WeakDestroy(w, i), raw + {i}) && OthersUntouched(w, WeakDestroy(w, i), raw + {i})
    ensures WeakDestroy(w, i).wrappers == w.wrappers
  {
    if w.wrappers[i].cmd == Empty {
      EmptyIsRaw(fits, w, raw, i);
    } else {
      var r, b := WeakDestroy(w, i), w.wrappers[i].storage;
      assert Holds(w, raw, i);
      assert forall j :: Holds(r, raw + {i}, j) <==> Holds(w, raw, j) && j != i;
      DestroyOnce(w, b);
      forall j | j in w.wrappers && j !in raw + {i} ensures Untouched(w, r, j) {
        assert w.wrappers[j].cmd != Empty ==> Holds(w, raw, j);
      }
    }
  }

  /** Making room for a wrapper. */
  lemma RawOwned(fits: Fits, w: World, i: WrapperId, capacity: nat)
    requires Owned(fits, w, {}) && i !in w.wrappers
    ensures Owned(fits, Raw(w, i, capacity), {i}) && Owned(fits, Raw(w, i, capacity), {})
    ensures OthersUntouched(w, Raw(w, i, capacity), {})
  {
    assert forall j :: Holds(Raw(w, i, capacity), {}, j) <==> Holds(w, {}, j);
    assert forall j :: Holds(Raw(w, i, capacity), {i}, j) <==> Holds(w, {}, j);
  }

  /** Constructing a box in a raw wrapper. */
  lemma ConstructOwned(fits: Fits, w: World, raw: set<WrapperId>, to: WrapperId, box: Box)
    requires Owned(fits, w, raw + {to}) && to in w.wrappers && to !in raw
    ensures var r := Construct(fits, w, to, box);
      && Owned(fits, r, raw) && OthersUntouched(w, r, {to})
      && Alive(r, to) && Content(r, to) == Some(box) && r.wrappers.Keys == w.wrappers.Keys
  {
    var r := Construct(fits, w, to, box);
    assert w.next !in w.boxes && w.next !in w.destroyed;
    assert forall j :: Holds(r, raw, j) <==> Holds(w, raw + {to}, j) || j == to;
  }

  /** Handing an allocated box over by its pointer. */
  lemma StealOwned(fits: Fits, w: World, from: WrapperId, to: WrapperId)
    requires Owned(fits, w, {to}) && from in w.wrappers && to in w.wrappers && from != to
    requires w.wrappers[from].cmd == Allocated && w.wrappers[from].storage in w.boxes
    ensures Owned(fits, SetCmd(Steal(w, w.wrappers[from].storage, to), from, Empty, 0), {})
  {
    assert Holds(w, {to}, from);
    var r := SetCmd(Steal(w, w.wrappers[from].storage, to), from, Empty, 0);
    assert forall j :: Holds(r, {}, j) <==> j != from && (j == to || Holds(w, {to}, j));
    assert DestroyedOnce(r) by {
      assert r.boxes.Keys == w.boxes.Keys;
      assert forall b :: b in r.boxes <==> b in w.boxes;
    }
    hide DestroyedOnce;
  }

  lemma StealKeeps(w: World, from: WrapperId, to: WrapperId)
    requires from in w.wrappers && to in w.wrappers && from != to
    requires w.wrappers[from].cmd == Allocated && w.wrappers[from].storage in w.boxes
    ensures var b := w.wrappers[from].storage;
      var r := SetCmd(Steal(w, b, to), from, Empty, 0);
      Alive(r, to) && Content(r, to) == Some(w.boxes[b].box) && OthersUntouched(w, r, {from, to})
  {}

  /** op_move: the target takes over the source's content, whichever way it is stored, and the source is empty. */
  lemma MoveOwned(fits: Fits, w: World, from: WrapperId, to: WrapperId)
    requires Owned(fits, w, {to}) && from in w.wrappers && to in w.wrappers && from != to && Alive(w, from)
    ensures var r := Move(fits, w, from, to);
      && Owned(fits, r, {}) && OthersUntouched(w, r, {from, to}) && r.wrappers.Keys == w.wrappers.Keys
      && r.wrappers[from].cmd == Empty && Alive(r, to) && Content(r, to) == Content(w, from)
  {
    assert {} + {to} == {to} && {} + {from} == {from};
    match w.wrappers[from].cmd {
      case Empty =>
        var e := SetCmd(w, to, Empty, 0);
        SetEmptyOwned(fits, w, {}, to);
        EmptyIsRaw(fits, e, {}, from);
        SetEmptyOwned(fits, e, {}, from);
      case Allocated =>
        StealOwned(fits, w, from, to);
        StealKeeps(w, from, to);
      case Inplace =>
        MoveInplaceOwned(fits, w, from, to);
    }
  }

  lemma MoveInplaceOwned(fits: Fits, w: World, from: WrapperId, to: WrapperId)
    requires Owned(fits, w, {to}) && from in w.wrappers && to in w.wrappers && from != to && Alive(w, from)
    requires w.wrappers[from].cmd == Inplace
    ensures var r := Move(fits, w, from, to);
      && Owned(fits, r, {}) && OthersUntouched(w, r, {from, to}) && r.wrappers.Keys == w.wrappers.Keys
      && r.wrappers[from].cmd == Empty && Alive(r, to) && Content(r, to) == Content(w, from)
  {
    assert {} + {to} == {to} && {} + {from} == {from};
    var box := w.boxes[w.wrappers[from].storage].box;
    var c := Construct(fits, w, to, box);
    ConstructOwned(fits, w, {}, to, box);
    WeakDestroyOwned(fits, c, {}, from);
    var d := WeakDestroy(c, from);
    SetEmptyOwned(fits, d, {}, from);
    hide Owned;
    var r := SetCmd(d, from, Empty, 0);
    assert r == Move(fits, w, from, to);
    forall j | j in w.wrappers && j !in {from, to} ensures Untouched(w, r, j) {
      assert Untouched(w, c, j) && Untouched(c, d, j) && Untouched(d, r, j);
    }
    assert Untouched(c, d, to) && Untouched(d, r, to);
  }

  /** op_copy: the target gets a box of its own with the source's content. */
  lemma CopyOwned(fits: Fits, w: World, from: WrapperId, to: WrapperId)
    requires Owned(fits, w, {to}) && from in w.wrappers && to in w.wrappers && from != to && Alive(w, from)
    ensures var r := Copy(fits, w, from, to);
      && Owned(fits, r, {}) && OthersUntouched(w, r, {to}) && r.wrappers.Keys == w.wrappers.Keys
      && Alive(r, to) && Content(r, to) == Content(w, from) && Alive(r, from) && Content(r, from) == Content(w, from)
  {
    assert {} + {to} == {to};
    if w.wrappers[from].cmd == Empty {
      SetEmptyOwned(fits, w, {}, to);
    } else {
      ConstructOwned(fits, w, {}, to, w.boxes[w.wrappers[from].storage].box);
    }
  }

  lemma TransferOwned(fits: Fits, w: World, how: How, from: WrapperId, to: WrapperId)
    requires Owned(fits, w, {to}) && from in w.wrappers && to in w.wrappers && from != to && Alive(w, from)
    ensures var r := Transfer(fits, w, how, from, to);
      && Owned(fits, r, {}) && OthersUntouched(w, r, {from, to}) && r.wrappers.Keys == w.wrappers.Keys
      && Alive(r, to) && Content(r, to) == Content(w, from)
      && Alive(r, from) && Content(r, from) == (if how == ByMove then None else Content(w, from))
  {
    match how {
      case ByMove => MoveOwned(fits, w, from, to);
      case ByCopy => CopyOwned(fits, w, from, to);
    }
  }

  // ---- The operations as a user sees them: every wrapper is a value ----

  type Values = map<WrapperId, Option<Box>>

  /** The world keeps the ownership rules and its wrappers, the raw ones aside, hold exactly these values. */
  ghost predicate Shows(fits: Fits, w: World, m: Values, raw: set<WrapperId>) {
    && Owned(fits, w, raw)
    && w.wrappers.Keys == m.Keys
    && forall i :: i in m && i !in raw ==> Alive(w, i) && Content(w, i) == m[i]
  }

  /** The wrappers outside `changed` show what they showed. */
  lemma OthersShow(fits: Fits, w: World, m: Values, raw: set<WrapperId>, r: World, changed: set<WrapperId>)
    requires Shows(fits, w, m, raw) && OthersUntouched(w, r, changed)
    ensures forall i :: i in m && i !in changed + raw ==> Alive(r, i) && Content(r, i) == m[i]
  {
    hide Owned;
    assert forall i :: i in m && i !in changed + raw ==> Untouched(w, r, i);
  }

  lemma RawShows(fits: Fits, w: World, m: Values, i: WrapperId, capacity: nat)
    requires Shows(fits, w, m, {}) && i !in m
    ensures Shows(fits, Raw(w, i, capacity), m[i := None], {i}) && Shows(fits, Raw(w, i, capacity), m[i := None], {})
  {
    RawOwned(fits, w, i, capacity);
    hide Owned;
    OthersShow(fits, w, m, {}, Raw(w, i, capacity), {});
  }

  lemma WeakDestroyShows(fits: Fits, w: World, m: Values, i: WrapperId)
    requires Shows(fits, w, m, {}) && i in m
    ensures Alive(w, i) && Shows(fits, WeakDestroy(w, i), m, {i})
  {
    hide Owned;
    WeakDestroyOwned(fits, w, {}, i);
    assert {} + {i} == {i};
    OthersShow(fits, w, m, {}, WeakDestroy(w, i), {i});
  }

  lemma ConstructShows(fits: Fits, w: World, m: Values, to: WrapperId, box: Box)
    requires Shows(fits, w, m, {to}) && to in m
    ensures Shows(fits, Construct(fits, w, to, box), m[to := Some(box)], {})
  {
    hide Owned;
    assert {} + {to} == {to};
    ConstructOwned(fits, w, {}, to, box);
    OthersShow(fits, w, m, {to}, Construct(fits, w, to, box), {to});
  }

  /** What a transfer does to the values. */
  function Transferred(m: Values, how: How, from: WrapperId, to: WrapperId): Values
    requires from in m
  {
    m[to := m[from]][from := if how == ByMove then None else m[from]]
  }

  lemma TransferredAt(m: Values, how: How, from: WrapperId, to: WrapperId)
    requires from in m && to in m && from != to
    ensures var n: Values := Transferred(m, how, from, to);
      && n.Keys == m.Keys && n[to] == m[from] && n[from] == (if how == ByMove then None else m[from])
      && forall i :: i in m && i !in {from, to} ==> n[i] == m[i]
  {}

  lemma ShownKeys(fits: Fits, w: World, m: Values)
    requires Shows(fits, w, m, {})
    ensures w.wrappers.Keys == m.Keys
  {}

  lemma ShowsFrom(fits: Fits, w: World, m: Values)
    requires Owned(fits, w, {}) && w.wrappers.Keys == m.Keys
    requires forall i :: i in m ==> Alive(w, i) && Content(w, i) == m[i]
    ensures Shows(fits, w, m, {})
  {}

  lemma TransferShows(fits: Fits, w: World, m: Values, how: How, from: WrapperId, to: WrapperId)
    requires Shows(fits, w, m, {to}) && to in m && from in m && from != to
    ensures Shows(fits, Transfer(fits, w, how, from, to), Transferred(m, how, from, to), {})
  {
    assert Owned(fits, w, {to}) && to in w.wrappers && from in w.wrappers && Alive(w, from)
      && Content(w, from) == m[from]
        && w.wrappers.Keys == m.Keys;
    hide *;
    TransferOwned(fits, w, how, from, to);
    var r := Transfer(fits, w, how, from, to);
    OthersShow(fits, w, m, {to}, r, {from, to});
    var n: Values := Transferred(m, how, from, to);
    TransferredAt(m, how, from, to);
    forall i | i in n ensures Alive(r, i) && Content(r, i) == n[i] {
      if i != from && i != to {
        assert i !in {from, to} + {to};
      }
    }
    ShowsFrom(fits, r, n);
  }

  lemma NewShows(fits: Fits, w: World, m: Values, i: WrapperId, capacity: nat, callable: Option<Box>)
    requires Shows(fits, w, m, {}) && i !in m
    ensures Shows(fits, NewFrom(fits, w, i, capacity, callable), m[i := callable], {})
  {
    hide Shows, Raw, Construct, Owned;
    RawShows(fits, w, m, i, capacity);
    if callable.Some? {
      ConstructShows(fits, Raw(w, i, capacity), m[i := None], i, callable.value);
      assert m[i := None][i := callable] == m[i := callable];
    }
  }

  lemma ConstructFromShows(fits: Fits, w: World, m: Values, how: How, i: WrapperId, capacity: nat, from: WrapperId)
    requires Shows(fits, w, m, {}) && i !in m && from in m
    ensures var r := Constructed(fits, w, how, i, capacity, from);
      r.Some? && Shows(fits, r.value, Transferred(m, how, from, i), {})
  {
    assert Alive(w, from) && i !in w.wrappers && i !in m.Keys;
    assert m[i := None][i := m[from]] == m[i := m[from]];
    assert Transferred(m[i := None], how, from, i) == Transferred(m, how, from, i);
    hide Shows, Raw, Transfer, Transferred, Alive, Owned;
    RawShows(fits, w, m, i, capacity);
    TransferShows(fits, Raw(w, i, capacity), m[i := None], how, from, i);
  }

  lemma DestructShows(fits: Fits, w: World, m: Values, i: WrapperId)
    requires Shows(fits, w, m, {}) && i in m
    ensures var r := Destructed(w, i); r.Some? && Shows(fits, r.value, m - {i}, {})
  {
    WeakDestroyShows(fits, w, m, i);
    var d, r := WeakDestroy(w, i), Destruct(w, i);
    assert forall j :: Holds(r, {}, j) <==> Holds(d, {i}, j);
    forall j | j in m && j != i ensures Alive(r, j) && Content(r, j) == m[j] {
      assert Alive(d, j) && Content(d, j) == m[j];
    }
  }

  /** Assignment touches only live boxes exactly when the target is another wrapper or empty. */
  lemma SelfAssignment(fits: Fits, w: World, m: Values, to: WrapperId, from: WrapperId)
    requires Shows(fits, w, m, {}) && to in m && from in m
    ensures Assignable(w, to, from) <==> to != from || m[to] == None
  {
    WeakDestroyShows(fits, w, m, to);
    if to != from {
      assert Alive(WeakDestroy(w, to), from);
    }
  }

  lemma AssignFromShows(fits: Fits, w: World, m: Values, how: How, to: WrapperId, from: WrapperId)
    requires Shows(fits, w, m, {}) && to in m && from in m && (to != from || m[to] == None)
    ensures var r := Assigned(fits, w, how, to, from);
      r.Some? && Shows(fits, r.value, Transferred(m, how, from, to), {})
  {
    SelfAssignment(fits, w, m, to, from);
    if to == from {
      assert AssignFrom(fits, w, how, to, from) == SetCmd(w, to, Empty, 0);
      ClearShows(fits, w, m, to);
    } else {
      hide Shows, WeakDestroy, Transfer, Transferred, Assignable, Alive, Owned;
      WeakDestroyShows(fits, w, m, to);
      TransferShows(fits, WeakDestroy(w, to), m, how, from, to);
    }
  }

  /** Resetting the vtable of a raw or an empty wrapper. */
  lemma ClearShows(fits: Fits, w: World, m: Values, i: WrapperId)
    requires i in m && (Shows(fits, w, m, {i}) || (Shows(fits, w, m, {}) && m[i] == None))
    ensures Shows(fits, SetCmd(w, i, Empty, 0), m[i := None], {})
  {
    assert {} + {i} == {i};
    if !Shows(fits, w, m, {i}) {
      EmptyIsRaw(fits, w, {}, i);
    }
    SetEmptyOwned(fits, w, {}, i);
    OthersShow(fits, w, m, {i}, SetCmd(w, i, Empty, 0), {i});
  }

  lemma AssignShows(fits: Fits, w: World, m: Values, to: WrapperId, callable: Option<Box>)
    requires Shows(fits, w, m, {}) && to in m
    ensures Alive(w, to) && Shows(fits, Assign(fits, w, to, callable), m[to := callable], {})
  {
    WeakDestroyShows(fits, w, m, to);
    var empty := w.wrappers[to].cmd == Empty;
    assert empty <==> m[to] == None;
    hide Shows, WeakDestroy, Construct, SetCmd, Alive, Owned;
    if callable == None {
      if !empty {
        ClearShows(fits, WeakDestroy(w, to), m, to);
      } else {
        assert m[to := None] == m;
      }
    } else {
      ConstructShows(fits, WeakDestroy(w, to), m, to, callable.value);
    }
  }

  // ---- Runs ----

  /** Conversions between capacities go through a parameter taken by value, swap through a local cache: both
      are wrappers of their own, named temp here. */
  datatype Op =
    | New(i: WrapperId, capacity: nat, callable: Option<Box>)
    | From(how: How, i: WrapperId, capacity: nat, from: WrapperId)
    | Convert(how: How, i: WrapperId, capacity: nat, from: WrapperId, temp: WrapperId)
    | Drop(i: WrapperId)
    | Set(i: WrapperId, callable: Option<Box>)
    | SetFrom(how: How, i: WrapperId, from: WrapperId)
    | SetConverted(how: How, i: WrapperId, from: WrapperId, temp: WrapperId)
    | Swap(i: WrapperId, other: WrapperId, temp: WrapperId)

  /** What the language lets a program do, with self-assignment of a full wrapper left out. */
  predicate Allowed(m: Values, op: Op) {
    match op
    case New(i, _, _) => i !in m
    case From(_, i, _, from) => i !in m && from in m
    case Convert(_, i, _, from, temp) => i !in m && from in m && temp !in m && temp != i
    case Drop(i) => i in m
    case Set(i, _) => i in m
    case SetFrom(_, i, from) => i in m && from in m && (i != from || m[i] == None)
    case SetConverted(_, i, from, temp) => i in m && from in m && i != from && temp !in m
    case Swap(i, other, temp) => i in m && other in m && temp !in m
  }

  /** The operations on plain values. */
  function ValueStep(m: Values, op: Op): Values
    requires Allowed(m, op)
  {
    match op
    case New(i, _, callable) => m[i := callable]
    case From(how, i, _, from) => Transferred(m, how, from, i)
    case Convert(how, i, _, from, _) => Transferred(m, how, from, i)
    case Drop(i) => m - {i}
    case Set(i, callable) => m[i := callable]
    case SetFrom(how, i, from) => Transferred(m, how, from, i)
    case SetConverted(how, i, from, _) => Transferred(m, how, from, i)
    case Swap(i, other, _) => m[i := m[other]][other := m[i]]
  }

  /** Each operation as the source composes it; None when it would touch a dead box or a missing wrapper. */
  function Step(fits: Fits, w: World, op: Op): Option<World> {
    match op
    case New(i, capacity, callable) => if i in w.wrappers then None else Some(NewFrom(fits, w, i, capacity, callable))
    case From(how, i, capacity, from) => Constructed(fits, w, how, i, capacity, from)
    case Convert(how, i, capacity, from, temp) =>
      if from !in w.wrappers then None else
      (match Constructed(fits, w, how, temp, w.wrappers[from].capacity, from)
       case None => None
       case Some(w1) =>
         match Constructed(fits, w1, ByMove, i, capacity, temp)
         case None => None
         case Some(w2) => Destructed(w2, temp))
    case Drop(i) => Destructed(w, i)
    case Set(i, callable) => if Alive(w, i) then Some(Assign(fits, w, i, callable)) else None
    case SetFrom(how, i, from) => Assigned(fits, w, how, i, from)
    case SetConverted(how, i, from, temp) =>
      if from !in w.wrappers then None else
      (match Constructed(fits, w, how, temp, w.wrappers[from].capacity, from)
       case None => None
       case Some(w1) =>
         match Assigned(fits, w1, ByMove, i, temp)
         case None => None
         case Some(w2) => Destructed(w2, temp))
    case Swap(i, other, temp) => if i == other then Some(w) else Swapped(fits, w, i, other, temp)
  }

  function Constructed(fits: Fits, w: World, how: How, i: WrapperId, capacity: nat, from: WrapperId): Option<World> {
    if Alive(w, from) && i !in w.wrappers then Some(ConstructFrom(fits, w, how, i, capacity, from)) else None
  }

  function Destructed(w: World, i: WrapperId): Option<World> {
    if Alive(w, i) then Some(Destruct(w, i)) else None
  }

  function Assigned(fits: Fits, w: World, how: How, to: WrapperId, from: WrapperId): Option<World> {
    if Assignable(w, to, from) then Some(AssignFrom(fits, w, how, to, from)) else None
  }

  /** swap: three moves and the end of the cache's life. */
  function Swapped(fits: Fits, w: World, i: WrapperId, other: WrapperId, temp: WrapperId): Option<World> {
    if other !in w.wrappers then None else
    match Constructed(fits, w, ByMove, temp, w.wrappers[other].capacity, other)
    case None => None
    case Some(w1) =>
      match Assigned(fits, w1, ByMove, other, i)
      case None => None
      case Some(w2) =>
        match Assigned(fits, w2, ByMove, i, temp)
        case None => None
        case Some(w3) => Destructed(w3, temp)
  }

  /** Swap exchanges the two values, whichever way they are stored. */
  lemma SwapExchanges(fits: Fits, w: World, m: Values, i: WrapperId, other: WrapperId, temp: WrapperId)
    requires Shows(fits, w, m, {}) && i in m && other in m && temp !in m && i != other
    ensures var r := Swapped(fits, w, i, other, temp);
      r.Some? && Shows(fits, r.value, m[i := m[other]][other := m[i]], {})
  {
    hide Shows, Constructed, Assigned, Destructed, Transferred;
    ShownKeys(fits, w, m);
    ConstructFromShows(fits, w, m, ByMove, temp, w.wrappers[other].capacity, other);
    var w1 := Constructed(fits, w, ByMove, temp, w.wrappers[other].capacity, other).value;
    var m1: Values := Transferred(m, ByMove, other, temp);
    SwapValues(m, i, other, temp);
    AssignFromShows(fits, w1, m1, ByMove, other, i);
    var w2 := Assigned(fits, w1, ByMove, other, i).value;
    var m2: Values := Transferred(m1, ByMove, i, other);
    AssignFromShows(fits, w2, m2, ByMove, i, temp);
    DestructShows(fits, Assigned(fits, w2, ByMove, i, temp).value, Transferred(m2, ByMove, temp, i), temp);
  }

  /** Three moves through a fourth name exchange two values. */
  lemma SwapValues(m: Values, i: WrapperId, other: WrapperId, temp: WrapperId)
    requires i in m && other in m && temp !in m && i != other
    ensures var m1: Values := Transferred(m, ByMove, other, temp);
      temp in m1 && i in m1 && other in m1 &&
      var m2: Values := Transferred(m1, ByMove, i, other);
      temp in m2 && i in m2 && other in m2 && m2[i] == None &&
      var m3: Values := Transferred(m2, ByMove, temp, i);
      temp in m3 && m3 - {temp} == m[i := m[other]][other := m[i]]
  {
    var m1: Values := m[temp := m[other]][other := None];
    assert Transferred(m, ByMove, other, temp) == m1;
    var m2: Values := m1[other := m[i]][i := None];
    assert Transferred(m1, ByMove, i, other) == m2;
    var m3: Values := m2[i := m[other]][temp := None];
    assert Transferred(m2, ByMove, temp, i) == m3;
    assert m3 - {temp} == m[i := m[other]][other := m[i]];
  }

  /** A transfer to a third name and on to i is a transfer to i. */
  lemma ConvertValues(m: Values, how: How, from: WrapperId, temp: WrapperId, i: WrapperId)
    requires from in m && temp !in m && temp != i && from != i
    ensures var m1: Values := Transferred(m, how, from, temp);
      temp in m1 && (i in m1 <==> i in m) && from in m1 &&
      var m2: Values := Transferred(m1, ByMove, temp, i);
      temp in m2 && m2 - {temp} == Transferred(m, how, from, i)
  {
    var kept := if how == ByMove then None else m[from];
    var m1: Values := m[temp := m[from]][from := kept];
    assert Transferred(m, how, from, temp) == m1;
    var m2: Values := m1[i := m[from]][temp := None];
    assert Transferred(m1, ByMove, temp, i) == m2;
    assert m2 - {temp} == m[i := m[from]][from := kept];
  }

  lemma ConvertShows(fits: Fits, w: World, m: Values, op: Op)
    requires Shows(fits, w, m, {}) && Allowed(m, op) && (op.Convert? || op.SetConverted?)
    ensures var r := Step(fits, w, op); r.Some? && Shows(fits, r.value, Transferred(m, op.how, op.from, op.i), {})
  {
    hide Shows, Constructed, Assigned, Destructed, Transferred, NewFrom, Assign, Swapped, Alive;
    ShownKeys(fits, w, m);
    var capacity := w.wrappers[op.from].capacity;
    ConvertValues(m, op.how, op.from, op.temp, op.i);
    ConstructFromShows(fits, w, m, op.how, op.temp, capacity, op.from);
    var w1 := Constructed(fits, w, op.how, op.temp, capacity, op.from).value;
    var m1: Values := Transferred(m, op.how, op.from, op.temp);
    var m2: Values := Transferred(m1, ByMove, op.temp, op.i);
    if op.Convert? {
      ConstructFromShows(fits, w1, m1, ByMove, op.i, op.capacity, op.temp);
      DestructShows(fits, Constructed(fits, w1, ByMove, op.i, op.capacity, op.temp).value, m2, op.temp);
    } else {
      AssignFromShows(fits, w1, m1, ByMove, op.i, op.temp);
      DestructShows(fits, Assigned(fits, w1, ByMove, op.i, op.temp).value, m2, op.temp);
    }
  }

  /** Every allowed operation is defined, keeps the ownership rules and acts on the values as it promises. */
  lemma StepShows(fits: Fits, w: World, m: Values, op: Op)
    requires Shows(fits, w, m, {}) && Allowed(m, op)
    ensures var r := Step(fits, w, op); r.Some? && Shows(fits, r.value, ValueStep(m, op), {})
  {
    assert op.New? || op.Set? ==> ((op.i in w.wrappers <==> op.i in m) && (op.Set? ==> Alive(w, op.i)));
    hide Shows, Transferred, Constructed, Destructed, Assigned, Swapped, NewFrom, Assign, Alive;
    match op {
      case New(i, capacity, callable) => NewShows(fits, w, m, i, capacity, callable);
      case From(how, i, capacity, from) => ConstructFromShows(fits, w, m, how, i, capacity, from);
      case Convert(_, _, _, _, _) => ConvertShows(fits, w, m, op);
      case Drop(i) => DestructShows(fits, w, m, i);
      case Set(i, callable) => AssignShows(fits, w, m, i, callable);
      case SetFrom(how, i, from) => AssignFromShows(fits, w, m, how, i, from);
      case SetConverted(_, _, _, _) => ConvertShows(fits, w, m, op);
      case Swap(i, other, temp) =>
        if i != other {
          SwapExchanges(fits, w, m, i, other, temp);
        } else {
          assert m[i := m[other]][other := m[i]] == m;
        }
    }
  }

  function Run(fits: Fits, w: World, ops: seq<Op>): Option<World>
    decreases |ops|
  {
    if ops == [] then Some(w) else
    match Step(fits, w, ops[0])
    case None => None
    case Some(r) => Run(fits, r, ops[1..])
  }

  predicate AllAllowed(m: Values, ops: seq<Op>)
    decreases |ops|
  {
    ops == [] || (Allowed(m, ops[0]) && AllAllowed(ValueStep(m, ops[0]), ops[1..]))
  }

  function ValueRun(m: Values, ops: seq<Op>): Values
    requires AllAllowed(m, ops)
    decreases |ops|
  {
    if ops == [] then m else ValueRun(ValueStep(m, ops[0]), ops[1..])
  }

  lemma {:induction false} RunShows(fits: Fits, w: World, m: Values, ops: seq<Op>)
    requires Shows(fits, w, m, {}) && AllAllowed(m, ops)
    ensures var r := Run(fits, w, ops); r.Some? && Shows(fits, r.value, ValueRun(m, ops), {})
    decreases |ops|
  {
    hide Shows, Step, Allowed, ValueStep;
    if ops == [] {
    } else {
      StepShows(fits, w, m, ops[0]);
      RunShows(fits, Step(fits, w, ops[0]).value, ValueStep(m, ops[0]), ops[1..]);
    }
  }

  const START := World(map[], map[], [], 0)

  /** Over every run from nothing, the wrappers behave as plain values; each live box has exactly one owner, each
      box made is live or was destroyed exactly once, and once the wrappers are gone every box has been destroyed. */
  lemma EveryBoxDestroyedOnce(fits: Fits, ops: seq<Op>)
    requires AllAllowed(map[], ops)
    ensures var r := Run(fits, START, ops);
      && r.Some? && Shows(fits, r.value, ValueRun(map[], ops), {})
      && (forall b :: b in r.value.boxes ==> exists i :: Holds(r.value, {}, i) && r.value.wrappers[i].storage == b)
      && (forall i, j ::
            Holds(r.value, {}, i) && Holds(r.value, {}, j) && r.value.wrappers[i].storage == r.value.wrappers[j].storage
            ==> i == j)
      && DestroyedOnce(r.value)
      && (ValueRun(map[], ops) == map[] ==> r.value.boxes == map[])
  {
    var none: Values := map[];
    assert START.wrappers.Keys == none.Keys;
    assert forall i :: !Holds(START, {}, i);
    assert Owned(fits, START, {});
    RunShows(fits, START, none, ops);
    var r := Run(fits, START, ops).value;
    forall b | b in r.boxes ensures exists i :: Holds(r, {}, i) && r.wrappers[i].storage == b {
      ExactlyOneOwner(fits, r, b);
    }
    if ValueRun(map[], ops) == map[] {
      assert r.wrappers.Keys == {};
      assert forall b :: b !in r.boxes;
    }
  }
}
