/** Signals and targets as objects: the loops over connection lists and sender sets, each shown to be the
    operation of the same name in Sigslot on the net the live objects form. */
module SigslotObjects {

  import opened Sigslot
  import opened Sequences

  ghost function View(ss: set<Signal>, ts: set<Target>): Net<Signal, Target>
    reads ss, ts
  {
    Net(map s | s in ss :: s.slots, map t | t in ts :: t.senders)
  }

  /** has_slots */
  class Target {
    var senders: set<Signal>

    constructor ()
      ensures senders == {}
    {
      senders := {};
    }

    method SignalConnect(sender: Signal)
      modifies this
      ensures senders == old(senders) + {sender}
    {
      senders := senders + {sender};
    }

    method SignalDisconnect(sender: Signal)
      modifies this
      ensures senders == old(senders) - {sender}
    {
      senders := senders - {sender};
    }

    /** Every sender drops its connections to this target. */
    method DisconnectAll(ghost ss: set<Signal>, ghost ts: set<Target>)
      requires this in ts && Called(View(ss, ts), this)
      modifies this, senders
      ensures View(ss, ts) == ClearTargetStep(old(View(ss, ts)), this)
    {
      var rest := senders;
      while rest != {}
        invariant rest <= senders && senders == old(senders) <= ss
        invariant forall s :: s in senders && s !in rest ==> s.slots == Without(old(s.slots), this)
        invariant forall s :: s in rest ==> s.slots == old(s.slots)
        modifies senders
        decreases |rest|
      {
        var s :| s in rest;
        s.SlotDisconnect(this);
        rest := rest - {s};
      }
      senders := {};
    }

    /** The copy constructor: the senders of `source` duplicate its connections for the copy. */
    constructor Copy(source: Target, ghost ss: set<Signal>, ghost ts: set<Target>)
      requires source in ts && Called(View(ss, ts), source)
      modifies source.senders
      ensures View(ss, ts + {this}) == CopyTargetStep(old(View(ss, ts)), source, this)
    {
      senders := {};
      new;
      TakeSenders(source, ss);
    }

    method TakeSenders(source: Target, ghost ss: set<Signal>)
      requires source != this && senders == {} && source.senders <= ss
      modifies this, source.senders
      ensures senders == source.senders == old(source.senders)
      ensures forall s :: s in senders ==> s.slots == old(s.slots) + Redirected(old(s.slots), source, this)
    {
      var rest := source.senders;
      while rest != {}
        invariant rest <= source.senders == old(source.senders) && senders == source.senders - rest
        invariant forall s :: s in senders ==> s.slots == old(s.slots) + Redirected(old(s.slots), source, this)
        invariant forall s :: s in rest ==> s.slots == old(s.slots)
        decreases |rest|
      {
        var s :| s in rest;
        s.SlotDuplicate(source, this);
        senders, rest := senders + {s}, rest - {s};
      }
    }
  }

  /** _signal_base0 with signal0.connect */
  class Signal {
    var slots: seq<Connection<Target>>

    constructor ()
      ensures slots == []
    {
      slots := [];
    }

    method Connect(target: Target, memfun: nat, ghost ss: set<Signal>, ghost ts: set<Target>)
      requires this in ss && target in ts
      modifies this, target
      ensures View(ss, ts) == ConnectStep(old(View(ss, ts)), this, target, memfun)
    {
      slots := slots + [Connection(target, memfun)];
      target.SignalConnect(this);
    }

    /** Drops every connection to the target. */
    method SlotDisconnect(target: Target)
      modifies this
      ensures slots == Without(old(slots), target)
    {
      var i := 0;
      while i < |slots|
        invariant i <= |slots| && slots[..i] + Without(slots[i..], target) == Without(old(slots), target)
        decreases |slots| - i
      {
        assert slots[i..] == [slots[i]] + slots[i + 1..];
        if slots[i].dest == target {
          slots := slots[..i] + slots[i + 1..];
        } else {
          i := i + 1;
        }
      }
    }

    /** Appends to the list it walks: what it appends leads to the new target and is walked over as well. */
    method SlotDuplicate(oldTarget: Target, newTarget: Target)
      requires oldTarget != newTarget
      modifies this
      ensures slots == old(slots) + Redirected(old(slots), oldTarget, newTarget)
    {
      ghost var c := slots;
      var i := 0;
      while i < |slots|
        invariant i <= |slots| && |c| <= |slots|
        invariant i <= |c| ==> slots == c + Redirected(c[..i], oldTarget, newTarget)
        invariant i >= |c| ==> slots == c + Redirected(c, oldTarget, newTarget)
        decreases if i < |c| then |c| - i else 0, |slots| - i
      {
        Walked(c, slots, i, oldTarget, newTarget);
        if slots[i].dest == oldTarget {
          slots := slots + [slots[i].(dest := newTarget)];
        }
        i := i + 1;
      }
    }

    /** disconnect: only the first connection to the target goes, its sender entry goes with it. */
    method Disconnect(target: Target, ghost ss: set<Signal>, ghost ts: set<Target>)
      requires this in ss && target in ts
      modifies this, target
      ensures View(ss, ts) == DisconnectStep(old(View(ss, ts)), this, target)
    {
      var found := EraseFirst(target);
      if found {
        target.SignalDisconnect(this);
      }
    }

    method EraseFirst(target: Target) returns (found: bool)
      modifies this
      ensures found <==> target in Dests(old(slots))
      ensures slots == if found then DropFirst(old(slots), target) else old(slots)
    {
      var i := 0;
      while i < |slots|
        invariant slots == old(slots)
        invariant i <= |slots| && target !in Dests(slots[..i])
        invariant slots[..i] + DropFirst(slots[i..], target) == DropFirst(slots, target)
      {
        assert slots[..i + 1] == slots[..i] + [slots[i]];
        DestsAppend(slots[..i], [slots[i]]);
        assert slots[i..] == [slots[i]] + slots[i + 1..];
        if slots[i].dest == target {
          assert slots[i] in slots;
          slots := slots[..i] + slots[i + 1..];
          return true;
        }
        i := i + 1;
      }
      assert slots[..i] == slots;
      found := false;
    }

    /** Every target connected to forgets this signal, then the list is emptied. */
    method DisconnectAll(ghost ss: set<Signal>, ghost ts: set<Target>)
      requires this in ss && Calls(View(ss, ts), this)
      modifies this, Dests(slots)
      ensures View(ss, ts) == ClearSignalStep(old(View(ss, ts)), this)
    {
      var i := 0;
      while i < |slots|
        invariant i <= |slots| && slots == old(slots)
        invariant forall t :: t in ts ==>
          t.senders == if t in Dests(slots[..i]) then old(t.senders) - {this} else old(t.senders)
        modifies Dests(slots)
      {
        assert slots[..i + 1] == slots[..i] + [slots[i]];
        DestsAppend(slots[..i], [slots[i]]);
        slots[i].dest.SignalDisconnect(this);
        i := i + 1;
      }
      assert slots[..i] == slots;
      slots := [];
    }

    /** The copy constructor: every target connected to learns of the copy. */
    constructor Copy(source: Signal, ghost ss: set<Signal>, ghost ts: set<Target>)
      requires source in ss && Calls(View(ss, ts), source)
      modifies Dests(source.slots)
      ensures View(ss + {this}, ts) == CopySignalStep(old(View(ss, ts)), source, this)
    {
      slots := [];
      new;
      TakeSlots(source, ts);
    }

    method TakeSlots(source: Signal, ghost ts: set<Target>)
      requires source != this && slots == [] && Dests(source.slots) <= ts
      modifies this, Dests(source.slots)
      ensures slots == source.slots == old(source.slots)
      ensures forall t :: t in ts ==>
        t.senders == if t in Dests(source.slots) then old(t.senders) + {this} else old(t.senders)
    {
      var i := 0;
      while i < |source.slots|
        invariant i <= |source.slots| && source.slots == old(source.slots) && slots == source.slots[..i]
        invariant forall t :: t in ts ==>
          t.senders == if t in Dests(slots) then old(t.senders) + {this} else old(t.senders)
      {
        var x := source.slots[i];
        DestsAppend(slots, [x]);
        x.dest.SignalConnect(this);
        slots := slots + [x];
        i := i + 1;
      }
    }
  }

  /** One step of the walk over a list that grows. */
  lemma Walked(c: seq<Connection<Target>>, slots: seq<Connection<Target>>, i: nat, from: Target, to: Target)
    requires from != to && i < |slots|
    requires slots == c + Redirected(if i < |c| then c[..i] else c, from, to)
    ensures i < |c| ==> slots[i] == c[i]
    ensures i < |c| ==> c + Redirected(c[..i + 1], from, to) == slots + Redirected([c[i]], from, to)
    ensures i >= |c| ==> slots[i].dest == to
    ensures c[..|c|] == c
  {
    if i < |c| {
      assert c[..i + 1] == c[..i] + [c[i]];
      RedirectedAppend(c[..i], [c[i]], from, to);
      Regroup(c, Redirected(c[..i], from, to), Redirected([c[i]], from, to));
      hide Redirected;
    } else {
      RedirectedDests(c, from, to);
      assert slots[i] in Redirected(c, from, to);
    }
  }
}
