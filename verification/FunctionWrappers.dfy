/** fu2::function as objects: each method rewrites the wrappers and boxes as the functions of FunctionErasure
    describe on the world seen as a whole. */
module FunctionWrappers {

  import opened FunctionErasure
  import opened Options

  /** The boxes of the program. */
  class Heap {
    const fits: Fits
    var boxes: map<BoxId, Live>
    var destroyed: seq<BoxId>
    var next: BoxId

    constructor (fits: Fits)
      ensures this.fits == fits && boxes == map[] && destroyed == [] && next == 0
    {
      this.fits := fits;
      boxes, destroyed, next := map[], [], 0;
    }

    method Make(box: Box, holder: WrapperId) returns (b: BoxId)
      modifies this
      ensures b == old(next) && next == b + 1 && boxes == old(boxes)[b := Live(box, holder)]
        && destroyed == old(destroyed)
    {
      b := next;
      boxes, next := boxes[b := Live(box, holder)], next + 1;
    }

    method DestroyBox(b: BoxId)
      modifies this
      ensures boxes == old(boxes) - {b} && destroyed == old(destroyed) + [b] && next == old(next)
    {
      boxes, destroyed := boxes - {b}, destroyed + [b];
    }
  }

  /** These wrappers use one heap and have addresses of their own. */
  predicate Together(ws: set<Erasure>, heap: Heap) {
    && (forall e :: e in ws ==> e.heap == heap)
    && (forall e, f :: e in ws && f in ws && e.id == f.id ==> e == f)
  }

  ghost function View(ws: set<Erasure>, heap: Heap): World
    requires Together(ws, heap)
    reads ws, heap
  {
    World(map e | e in ws :: e.id := Wrapper(e.capacity, e.cmd, e.storage), heap.boxes, heap.destroyed, heap.next)
  }

  lemma ViewAt(ws: set<Erasure>, heap: Heap, e: Erasure)
    requires Together(ws, heap) && e in ws
    ensures var w := View(ws, heap);
      e.id in w.wrappers && w.wrappers[e.id] == Wrapper(e.capacity, e.cmd, e.storage) && w.boxes == heap.boxes
  {}

  /** No wrapper has this address. */
  predicate Unused(ws: set<Erasure>, id: WrapperId) {
    forall e :: e in ws ==> e.id != id
  }

  lemma UnusedAddress(ws: set<Erasure>, heap: Heap, id: WrapperId)
    requires Together(ws, heap) && Unused(ws, id)
    ensures id !in View(ws, heap).wrappers
  {}

  class Erasure {
    const id: WrapperId
    const capacity: nat
    const heap: Heap
    var cmd: Cmd
    var storage: BoxId

    constructor (id: WrapperId, capacity: nat, heap: Heap, ghost ws: set<Erasure>)
      requires Together(ws, heap) && Unused(ws, id)
      ensures this.id == id && this.capacity == capacity && this.heap == heap
      ensures Together(ws + {this}, heap) && View(ws + {this}, heap) == Raw(old(View(ws, heap)), id, capacity)
    {
      this.id, this.capacity, this.heap := id, capacity, heap;
      cmd, storage := Empty, 0;
      new;
      assert View(ws + {this}, heap).wrappers == View(ws, heap).wrappers[id := Wrapper(capacity, Empty, 0)];
    }

    /** set_empty, set_inplace and set_allocated. */
    method SetCommand(cmd: Cmd, storage: BoxId, ghost ws: set<Erasure>)
      requires Together(ws, heap) && this in ws
      modifies this
      ensures View(ws, heap) == SetCmd(old(View(ws, heap)), id, cmd, storage)
    {
      this.cmd, this.storage := cmd, storage;
      assert View(ws, heap).wrappers == old(View(ws, heap)).wrappers[id := Wrapper(capacity, cmd, storage)];
    }

    /** The move constructor. */
    constructor MoveFrom(id: WrapperId, capacity: nat, right: Erasure, ghost ws: set<Erasure>)
      requires Together(ws, right.heap) && Unused(ws, id) && right in ws && Alive(View(ws, right.heap), right.id)
      modifies right, right.heap
      ensures this.id == id && Together(ws + {this}, right.heap)
      ensures var w := old(View(ws, right.heap));
        id !in w.wrappers
          && View(ws + {this}, right.heap) == ConstructFrom(right.heap.fits, w, ByMove, id, capacity, right.id)
    {
      this.id, this.capacity, this.heap := id, capacity, right.heap;
      cmd, storage := Empty, 0;
      new;
      assert View(ws + {this}, heap).wrappers == View(ws, heap).wrappers[id := Wrapper(capacity, Empty, 0)];
      hide View;
      right.MoveTo(this, ws + {this});
    }

    /** The copy constructor. */
    constructor CopyFrom(id: WrapperId, capacity: nat, right: Erasure, ghost ws: set<Erasure>)
      requires Together(ws, right.heap) && Unused(ws, id) && right in ws && Alive(View(ws, right.heap), right.id)
      modifies right.heap
      ensures this.id == id && Together(ws + {this}, right.heap)
      ensures var w := old(View(ws, right.heap));
        id !in w.wrappers
          && View(ws + {this}, right.heap) == ConstructFrom(right.heap.fits, w, ByCopy, id, capacity, right.id)
    {
      this.id, this.capacity, this.heap := id, capacity, right.heap;
      cmd, storage := Empty, 0;
      new;
      assert View(ws + {this}, heap).wrappers == View(ws, heap).wrappers[id := Wrapper(capacity, Empty, 0)];
      hide View;
      right.CopyTo(this, ws + {this});
    }

    /** trait::construct */
    method Construct(box: Box, ghost ws: set<Erasure>)
      requires Together(ws, heap) && this in ws
      modifies this, heap
      ensures View(ws, heap) == FunctionErasure.Construct(heap.fits, old(View(ws, heap)), id, box)
    {
      var b := heap.Make(box, id);
      SetCommand(if heap.fits(box, capacity) then Inplace else Allocated, b, ws);
    }

    /** op_weak_destroy */
    method WeakDestroy(ghost ws: set<Erasure>)
      requires Together(ws, heap) && this in ws && Alive(View(ws, heap), id)
      modifies heap
      ensures View(ws, heap) == FunctionErasure.WeakDestroy(old(View(ws, heap)), id)
    {
      if cmd != Empty {
        heap.DestroyBox(storage);
      }
    }

    /** op_destroy */
    method Destroy(ghost ws: set<Erasure>)
      requires Together(ws, heap) && this in ws && Alive(View(ws, heap), id)
      modifies this, heap
      ensures View(ws, heap) == FunctionErasure.Destroy(old(View(ws, heap)), id)
    {
      if cmd != Empty {
        WeakDestroy(ws);
        SetCommand(Empty, 0, ws);
      }
    }

    /** The pointer to an allocated box is copied to another wrapper. */
    method StealFor(to: Erasure, ghost ws: set<Erasure>)
      requires Together(ws, heap) && this in ws && to in ws && storage in heap.boxes
      modifies to, heap
      ensures View(ws, heap) == Steal(old(View(ws, heap)), old(storage), to.id)
    {
      heap.boxes := heap.boxes[storage := Live(heap.boxes[storage].box, to.id)];
      to.SetCommand(Allocated, storage, ws);
    }

    /** A box held in place is move-constructed anew and the old one destroyed. */
    method MoveInplaceTo(to: Erasure, ghost ws: set<Erasure>)
      requires Together(ws, heap) && this in ws && to in ws && storage in heap.boxes
      modifies to, heap
      ensures var w := old(View(ws, heap)); var b := old(storage);
        View(ws, heap) == FunctionErasure.DestroyBox(FunctionErasure.Construct(heap.fits, w, to.id, w.boxes[b].box), b)
    {
      var b := storage;
      to.Construct(heap.boxes[b].box, ws);
      heap.DestroyBox(b);
    }

    /** vtable::move: op_move, after which this wrapper is set empty. */
    method MoveTo(to: Erasure, ghost ws: set<Erasure>)
      requires Together(ws, heap) && this in ws && to in ws && Alive(View(ws, heap), id)
      modifies this, to, heap
      ensures View(ws, heap) == Move(heap.fits, old(View(ws, heap)), id, to.id)
    {
      ViewAt(ws, heap, this);
      hide View;
      match cmd {
        case Empty => to.SetCommand(Empty, 0, ws);
        case Allocated => StealFor(to, ws);
        case Inplace => MoveInplaceTo(to, ws);
      }
      SetCommand(Empty, 0, ws);
    }

    /** op_copy */
    method CopyTo(to: Erasure, ghost ws: set<Erasure>)
      requires Together(ws, heap) && this in ws && to in ws && Alive(View(ws, heap), id)
      modifies to, heap
      ensures View(ws, heap) == Copy(heap.fits, old(View(ws, heap)), id, to.id)
    {
      if cmd == Empty {
        to.SetCommand(Empty, 0, ws);
      } else {
        to.Construct(heap.boxes[storage].box, ws);
      }
    }

    /** Assigning a callable, or nothing. */
    method Assign(callable: Option<Box>, ghost ws: set<Erasure>)
      requires Together(ws, heap) && this in ws && Alive(View(ws, heap), id)
      modifies this, heap
      ensures View(ws, heap) == FunctionErasure.Assign(heap.fits, old(View(ws, heap)), id, callable)
    {
      match callable {
        case None => Destroy(ws);
        case Some(box) =>
          WeakDestroy(ws);
          Construct(box, ws);
      }
    }

    method MoveAssign(right: Erasure, ghost ws: set<Erasure>)
      requires Together(ws, heap) && this in ws && right in ws && Assignable(View(ws, heap), id, right.id)
      modifies this, right, heap
      ensures View(ws, heap) == AssignFrom(heap.fits, old(View(ws, heap)), ByMove, id, right.id)
    {
      WeakDestroy(ws);
      right.MoveTo(this, ws);
    }

    method CopyAssign(right: Erasure, ghost ws: set<Erasure>)
      requires Together(ws, heap) && this in ws && right in ws && Assignable(View(ws, heap), id, right.id)
      modifies this, heap
      ensures View(ws, heap) == AssignFrom(heap.fits, old(View(ws, heap)), ByCopy, id, right.id)
    {
      WeakDestroy(ws);
      right.CopyTo(this, ws);
    }

    /** ~erasure: the wrapper leaves the program. */
    method Destruct(ghost ws: set<Erasure>)
      requires Together(ws, heap) && this in ws && Alive(View(ws, heap), id)
      modifies heap
      ensures View(ws - {this}, heap) == FunctionErasure.Destruct(old(View(ws, heap)), id)
    {
      WeakDestroy(ws);
      assert View(ws - {this}, heap).wrappers == View(ws, heap).wrappers - {id};
    }

    /** The three moves of swap. */
    method ThreeMoves(other: Erasure, cache: Erasure, ghost ws: set<Erasure>)
      requires Together(ws, heap) && this in ws && other in ws && cache in ws && Alive(View(ws, heap), other.id)
      requires var w1 := Move(heap.fits, View(ws, heap), other.id, cache.id);
        Assignable(w1, other.id, id) && Assignable(AssignFrom(heap.fits, w1, ByMove, other.id, id), id, cache.id)
      modifies this, other, cache, heap
      ensures var w2 := AssignFrom(heap.fits, Move(heap.fits, old(View(ws, heap)), other.id, cache.id), ByMove,
                                   other.id, id);
        View(ws, heap) == AssignFrom(heap.fits, w2, ByMove, id, cache.id)
    {
      hide View, Move, AssignFrom, Assignable, Alive;
      other.MoveTo(cache, ws);
      other.MoveAssign(this, ws);
      this.MoveAssign(cache, ws);
    }

    /** swap, with `address` the place of its local cache. */
    method Swap(other: Erasure, address: WrapperId, ghost ws: set<Erasure>)
      requires Together(ws, heap) && this in ws && other in ws && Unused(ws, address)
      requires other == this || Swapped(heap.fits, View(ws, heap), id, other.id, address).Some?
      modifies this, other, heap
      ensures Some(View(ws, heap)) ==
        (if other == this then Some(old(View(ws, heap)))
         else Swapped(heap.fits, old(View(ws, heap)), id, other.id, address))
    {
      if other == this {
        return;
      }
      ViewAt(ws, heap, other);
      UnusedAddress(ws, heap, address);
      hide View, Together, Raw, Move, Copy, AssignFrom, Assignable, Alive, FunctionErasure.Destruct,
        FunctionErasure.WeakDestroy;
      var cache := new Erasure(address, other.capacity, heap, ws);
      ghost var all := ws + {cache};
      ThreeMoves(other, cache, all);
      cache.Destruct(all);
      assert all - {cache} == ws;
    }
  }
}
