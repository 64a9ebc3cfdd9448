/** SortDependencyList: a depth-first walk that marks a component on entry and emits it on exit. */
module DependencySort {
  import opened DependencyGraph

  /** The state of the walk: the components already marked and the queue of emitted ones. */
  datatype Walk = Walk(visited: set<Ref>, out: seq<Ref>)

  /** Visit the unmarked entries of es in order. */
  function VisitAll(g: Graph, es: seq<Ref>, s: Walk): (r: Walk)
    requires Closed(g) && In(g, es) && s.visited <= g.Keys
    ensures s.visited <= r.visited <= g.Keys
    decreases g.Keys - s.visited, |es|
  {
    if es == [] then s
    else if es[0] in s.visited then VisitAll(g, es[1..], s)
    else
      var inner := VisitAll(g, g[es[0]], Walk(s.visited + {es[0]}, s.out));
      VisitAll(g, es[1..], Walk(inner.visited, inner.out + [es[0]]))
  }

  function Sort(g: Graph, list: seq<Ref>): seq<Ref>
    requires Closed(g) && In(g, list)
  {
    VisitAll(g, list, Walk({}, [])).out
  }

  /** The components emitted so far are marked, and none is emitted twice. */
  ghost predicate WellFormed(s: Walk) {
    NoDuplicates(s.out) && ToSet(s.out) <= s.visited
  }

  /** The newly marked components are the newly emitted ones. */
  ghost predicate Emitted(s: Walk, r: Walk) {
    && (forall x :: x in r.visited <==> x in s.visited || x in r.out)
    && (forall x :: x in s.visited ==> (x in r.out <==> x in s.out))
  }

  lemma PrefixSet(a: seq<Ref>, b: seq<Ref>)
    requires a <= b
    ensures ToSet(a) <= ToSet(b)
  {
    forall x | x in ToSet(a) ensures x in ToSet(b) {
      var i :| 0 <= i < |a| && a[i] == x;
      assert b[i] == x;
    }
  }

  /** A walk extends the queue by exactly the components it marks, each once. */
  lemma {:induction false} VisitEmits(g: Graph, es: seq<Ref>, s: Walk)
    requires Closed(g) && In(g, es) && s.visited <= g.Keys && WellFormed(s)
    ensures var r := VisitAll(g, es, s);
      && WellFormed(r) && s.out <= r.out
      && Emitted(s, r)
    decreases g.Keys - s.visited, |es|
  {
    if es == [] {
    } else {
      if es[0] in s.visited {
        VisitEmits(g, es[1..], s);
      } else {
        var s0 := Walk(s.visited + {es[0]}, s.out);
        VisitEmits(g, g[es[0]], s0);
        var inner := VisitAll(g, g[es[0]], s0);
        var s1 := Walk(inner.visited, inner.out + [es[0]]);
        assert es[0] !in ToSet(inner.out);
        assert ToSet(s1.out) == ToSet(inner.out) + {es[0]};
        VisitEmits(g, es[1..], s1);
        PrefixSet(s.out, inner.out);
        PrefixSet(s1.out, VisitAll(g, es[1..], s1).out);
      }
    }
  }

  /** After a walk every entry is marked, and so are the dependencies of every component it marked. */
  lemma {:induction false} VisitCloses(g: Graph, es: seq<Ref>, s: Walk)
    requires Closed(g) && In(g, es) && s.visited <= g.Keys
    ensures var r := VisitAll(g, es, s);
      && ToSet(es) <= r.visited
      && forall x, d :: x in r.visited - s.visited && d in g[x] ==> d in r.visited
    decreases g.Keys - s.visited, |es|
  {
    if es == [] {
    } else {
      assert ToSet(es) == {es[0]} + ToSet(es[1..]);
      if es[0] in s.visited {
        VisitCloses(g, es[1..], s);
      } else {
        var s0 := Walk(s.visited + {es[0]}, s.out);
        VisitCloses(g, g[es[0]], s0);
        var inner := VisitAll(g, g[es[0]], s0);
        VisitCloses(g, es[1..], Walk(inner.visited, inner.out + [es[0]]));
      }
    }
  }

  /** A walk marks only what its entries reach. */
  lemma {:induction false} VisitReaches(g: Graph, es: seq<Ref>, s: Walk, x: Ref)
    requires Closed(g) && In(g, es) && s.visited <= g.Keys
    requires x in VisitAll(g, es, s).visited - s.visited
    ensures ReachesFrom(g, es, x)
    decreases g.Keys - s.visited, |es|
  {
    var e := es[0];
    if e in s.visited {
      VisitReaches(g, es[1..], s, x);
    } else {
      var s0 := Walk(s.visited + {e}, s.out);
      var inner := VisitAll(g, g[e], s0);
      if x == e {
        ReachRefl(g, e);
      } else if x in inner.visited {
        VisitReaches(g, g[e], s0, x);
        var d :| d in g[e] && Reaches(g, d, x);
        ReachEdge(g, e, d);
        ReachTrans(g, e, d, x);
      } else {
        VisitReaches(g, es[1..], Walk(inner.visited, inner.out + [e]), x);
      }
    }
  }

  /** Each dependency of an emitted component was emitted before it, unless the two form a cycle. */
  ghost predicate Ordered(g: Graph, out: seq<Ref>) {
    forall i, d :: 0 <= i < |out| && out[i] in g && d in g[out[i]]
      ==> d in out[..i] || Reaches(g, d, out[i])
  }

  /** Components marked but not yet emitted are the ones being visited; they reach every entry. */
  ghost predicate OnStackReach(g: Graph, es: seq<Ref>, s: Walk) {
    forall x, e :: x in s.visited - ToSet(s.out) && e in es ==> Reaches(g, x, e)
  }

  lemma {:induction false} VisitOrders(g: Graph, es: seq<Ref>, s: Walk)
    requires Closed(g) && In(g, es) && s.visited <= g.Keys && WellFormed(s)
    requires OnStackReach(g, es, s) && Ordered(g, s.out)
    ensures Ordered(g, VisitAll(g, es, s).out)
    decreases g.Keys - s.visited, |es|
  {
    if es == [] {
    } else {
      var e := es[0];
      if e in s.visited {
        VisitOrders(g, es[1..], s);
      } else {
        var s0 := Walk(s.visited + {e}, s.out);
        EnterKeepsStack(g, es, s);
        VisitOrders(g, g[e], s0);
        VisitEmits(g, g[e], s0);
        VisitCloses(g, g[e], s0);
        var inner := VisitAll(g, g[e], s0);
        var s1 := Walk(inner.visited, inner.out + [e]);
        PrefixSet(s.out, inner.out);
        LeaveKeepsOrder(g, e, s0, inner);
        assert ToSet(s1.out) == ToSet(inner.out) + {e};
        assert s1.visited - ToSet(s1.out) <= s.visited - ToSet(s.out);
        VisitOrders(g, es[1..], s1);
      }
    }
  }

  lemma EnterKeepsStack(g: Graph, es: seq<Ref>, s: Walk)
    requires Closed(g) && In(g, es) && es != [] && es[0] !in s.visited && WellFormed(s)
    requires OnStackReach(g, es, s)
    ensures OnStackReach(g, g[es[0]], Walk(s.visited + {es[0]}, s.out))
  {
    var e := es[0];
    forall x, d | x in s.visited + {e} - ToSet(s.out) && d in g[e]
      ensures Reaches(g, x, d)
    {
      ReachEdge(g, e, d);
      if x != e {
        ReachTrans(g, x, e, d);
      }
    }
  }

  lemma LeaveKeepsOrder(g: Graph, e: Ref, s0: Walk, inner: Walk)
    requires e in g && e in s0.visited && e !in ToSet(s0.out)
    requires forall x :: x in s0.visited - ToSet(s0.out) ==> x == e || Reaches(g, x, e)
    requires Emitted(s0, inner) && ToSet(s0.out) <= ToSet(inner.out)
    requires ToSet(g[e]) <= inner.visited && Ordered(g, inner.out)
    ensures Ordered(g, inner.out + [e])
  {
    var out := inner.out + [e];
    forall i, d | 0 <= i < |out| && out[i] in g && d in g[out[i]]
      ensures d in out[..i] || Reaches(g, d, out[i])
    {
      if i < |inner.out| {
        assert out[..i] == inner.out[..i];
      } else {
        assert out[..i] == inner.out;
        assert d in ToSet(g[e]);
        ReachRefl(g, e);
      }
    }
  }

  // ---- What a dependency leads to ----

  /** Unless a dependency leads back to its dependent, everything it leads to was emitted before the dependent. */
  ghost predicate DeeplyOrdered(g: Graph, out: seq<Ref>) {
    forall i, d, w :: 0 <= i < |out| && out[i] in g && d in g[out[i]] && Reaches(g, d, w)
      ==> w in out[..i] || Reaches(g, d, out[i])
  }

  /** The dependencies of the emitted components are marked. */
  ghost predicate OutClosed(g: Graph, s: Walk) {
    forall x, d :: x in s.out && x in g && d in g[x] ==> d in s.visited
  }

  lemma OutStaysClosed(g: Graph, es: seq<Ref>, s: Walk)
    requires Closed(g) && In(g, es) && s.visited <= g.Keys && WellFormed(s) && OutClosed(g, s)
    ensures OutClosed(g, VisitAll(g, es, s))
  {
    VisitEmits(g, es, s);
    VisitCloses(g, es, s);
    var r := VisitAll(g, es, s);
    forall x, d | x in r.out && x in g && d in g[x] ensures d in r.visited {
      assert x in s.visited ==> x in s.out;
    }
  }

  lemma {:induction false} VisitOrdersDeeply(g: Graph, es: seq<Ref>, s: Walk)
    requires Closed(g) && In(g, es) && s.visited <= g.Keys && WellFormed(s) && OutClosed(g, s)
    requires OnStackReach(g, es, s) && DeeplyOrdered(g, s.out)
    ensures DeeplyOrdered(g, VisitAll(g, es, s).out)
    decreases g.Keys - s.visited, |es|
  {
    if es == [] {
    } else if es[0] in s.visited {
      VisitOrdersDeeply(g, es[1..], s);
    } else {
      var e := es[0];
      var s0 := Walk(s.visited + {e}, s.out);
      EnterKeepsStack(g, es, s);
      VisitOrdersDeeply(g, g[e], s0);
      VisitEmits(g, g[e], s0);
      VisitCloses(g, g[e], s0);
      OutStaysClosed(g, g[e], s0);
      var inner := VisitAll(g, g[e], s0);
      var s1 := Walk(inner.visited, inner.out + [e]);
      PrefixSet(s.out, inner.out);
      LeaveDeeply(g, e, s0, inner);
      assert ToSet(s1.out) == ToSet(inner.out) + {e};
      assert s1.visited - ToSet(s1.out) <= s.visited - ToSet(s.out);
      VisitOrdersDeeply(g, es[1..], s1);
    }
  }

  lemma LeaveDeeply(g: Graph, e: Ref, s0: Walk, inner: Walk)
    requires Closed(g) && e in g && e in s0.visited && e !in ToSet(s0.out)
    requires forall x :: x in s0.visited - ToSet(s0.out) ==> x == e || Reaches(g, x, e)
    requires Emitted(s0, inner) && OutClosed(g, inner) && inner.visited <= g.Keys
    requires ToSet(g[e]) <= inner.visited && DeeplyOrdered(g, inner.out)
    ensures DeeplyOrdered(g, inner.out + [e])
  {
    var out := inner.out + [e];
    forall i, d, w | 0 <= i < |out| && out[i] in g && d in g[out[i]] && Reaches(g, d, w)
      ensures w in out[..i] || Reaches(g, d, out[i])
    {
      if i < |inner.out| {
        assert out[..i] == inner.out[..i];
      } else {
        assert out[..i] == inner.out && d in ToSet(g[e]);
        if !Reaches(g, d, e) {
          LeadsToEmitted(g, e, s0, inner, d, w);
        }
      }
    }
  }

  /** What does not lead to e only leads to emitted components: a component still being visited would lead to e. */
  lemma LeadsToEmitted(g: Graph, e: Ref, s0: Walk, inner: Walk, d: Ref, w: Ref)
    requires Closed(g) && e in g && e in s0.visited && e !in ToSet(s0.out)
    requires forall x :: x in s0.visited - ToSet(s0.out) ==> x == e || Reaches(g, x, e)
    requires Emitted(s0, inner) && OutClosed(g, inner) && inner.visited <= g.Keys
    requires d in inner.visited && !Reaches(g, d, e) && Reaches(g, d, w)
    ensures w in inner.out
  {
    ReachRefl(g, e);
    var away := set x | x in ToSet(inner.out) && !Reaches(g, x, e);
    forall x | x in inner.visited && !Reaches(g, x, e) ensures x in away {
      assert x in s0.visited ==> x in ToSet(s0.out);
    }
    forall x, y | x in away && x in g && y in g[x] ensures y in away {
      ReachEdge(g, x, y);
      if Reaches(g, y, e) {
        ReachTrans(g, x, y, e);
      }
    }
    var p :| IsPath(g, p, d, w);
    ReachStays(g, away, p, d, w);
  }

  // ---- The theorems about SortDependencyList ----

  /** The result holds exactly the components reachable from the list, each once. */
  lemma SortExact(g: Graph, list: seq<Ref>)
    requires Closed(g) && In(g, list)
    ensures NoDuplicates(Sort(g, list))
    ensures forall x :: x in Sort(g, list) <==> ReachesFrom(g, list, x)
  {
    var s := Walk({}, []);
    var r := VisitAll(g, list, s);
    VisitEmits(g, list, s);
    VisitCloses(g, list, s);
    assert ToSet([]) == {};
    assert ToSet(r.out) == r.visited;
    forall x ensures x in r.out <==> ReachesFrom(g, list, x) {
      if x in r.out {
        assert x in ToSet(r.out);
        VisitReaches(g, list, s, x);
      }
      if ReachesFrom(g, list, x) {
        var e :| e in list && Reaches(g, e, x);
        var p :| IsPath(g, p, e, x);
        assert e in ToSet(list);
        ReachStays(g, r.visited, p, e, x);
        assert x in ToSet(r.out);
      }
    }
  }

  /** For every edge u -> d that is not part of a cycle, d comes before u. */
  lemma SortOrders(g: Graph, list: seq<Ref>, i: nat, d: Ref)
    requires Closed(g) && In(g, list)
    requires i < |Sort(g, list)| && Sort(g, list)[i] in g && d in g[Sort(g, list)[i]]
    requires !Reaches(g, d, Sort(g, list)[i])
    ensures d in Sort(g, list)[..i]
  {
    VisitOrders(g, list, Walk({}, []));
  }

  /** And so does everything d leads to: an indirect dependency comes first unless the direct one leads back. */
  lemma SortOrdersDeeply(g: Graph, list: seq<Ref>, i: nat, d: Ref, w: Ref)
    requires Closed(g) && In(g, list)
    requires i < |Sort(g, list)| && Sort(g, list)[i] in g && d in g[Sort(g, list)[i]]
    requires !Reaches(g, d, Sort(g, list)[i]) && Reaches(g, d, w)
    ensures w in Sort(g, list)[..i]
  {
    VisitOrdersDeeply(g, list, Walk({}, []));
  }

  /** The component depends on no other component that leads back to it. */
  ghost predicate OnNoCycle(g: Graph, u: Ref)
    requires u in g
  {
    forall d :: d in g[u] && d != u ==> !Reaches(g, d, u)
  }

  /** A component on no cycle with others comes after everything it leads to, directly or not. */
  lemma SortIsTransitive(g: Graph, list: seq<Ref>, i: nat, w: Ref)
    requires Closed(g) && In(g, list) && i < |Sort(g, list)| && Sort(g, list)[i] in g
    requires OnNoCycle(g, Sort(g, list)[i])
    requires Reaches(g, Sort(g, list)[i], w) && w != Sort(g, list)[i]
    ensures w in Sort(g, list)[..i]
  {
    var u := Sort(g, list)[i];
    var p :| IsPath(g, p, u, w);
    var d := LeavesFor(g, p, u, w);
    SortOrdersDeeply(g, list, i, d, w);
  }

  /** A path to another component leaves u for the last time to some dependency. */
  lemma {:induction false} LeavesFor(g: Graph, p: seq<Ref>, u: Ref, w: Ref) returns (d: Ref)
    requires IsPath(g, p, u, w) && w != u
    ensures u in g && d in g[u] && d != u && Reaches(g, d, w)
    decreases |p|
  {
    assert IsPath(g, p[1..], p[1], w);
    if p[1] == u {
      d := LeavesFor(g, p[1..], u, w);
    } else {
      d := p[1];
    }
  }

  ghost predicate ComesAfterAll(g: Graph, list: seq<Ref>, u: Ref)
    requires Closed(g) && In(g, list)
  {
    forall i, w :: 0 <= i < |Sort(g, list)| && Sort(g, list)[i] == u && Reaches(g, u, w) && w != u
      ==> w in Sort(g, list)[..i]
  }

  /** The component a sort starts from is emitted last. */
  lemma RootIsLast(g: Graph, d: Ref)
    requires Closed(g) && d in g
    ensures |Sort(g, [d])| > 0 && Sort(g, [d])[|Sort(g, [d])| - 1] == d
  {
    var s := Walk({}, []);
    assert [d][1..] == [];
    var inner := VisitAll(g, g[d], Walk(s.visited + {d}, s.out));
    assert VisitAll(g, [d], s) == VisitAll(g, [], Walk(inner.visited, inner.out + [d]));
  }

  /** Whatever list is sorted, a component comes after everything it leads to exactly when it is on no cycle with
      others: sorting a dependency that leads back emits the component first. */
  lemma SortIsTransitiveExactly(g: Graph, u: Ref)
    requires Closed(g) && u in g
    ensures (forall list :: In(g, list) ==> ComesAfterAll(g, list, u)) <==> OnNoCycle(g, u)
  {
    if OnNoCycle(g, u) {
      forall list | In(g, list) ensures ComesAfterAll(g, list, u) {
        forall i, w | 0 <= i < |Sort(g, list)| && Sort(g, list)[i] == u && Reaches(g, u, w) && w != u
          ensures w in Sort(g, list)[..i]
        {
          SortIsTransitive(g, list, i, w);
        }
      }
    } else {
      var d :| d in g[u] && d != u && Reaches(g, d, u);
      var out := Sort(g, [d]);
      assert In(g, [d]) && d in [d];
      SortExact(g, [d]);
      RootIsLast(g, d);
      ReachEdge(g, u, d);
      assert ReachesFrom(g, [d], u);
      var i :| 0 <= i < |out| && out[i] == u;
      assert d !in out[..i];
      assert !ComesAfterAll(g, [d], u);
    }
  }

  /** A direct dependency that leads back takes its other dependencies with it: below, 0 depends on 1 which depends
      on 2, 2 never leads back to 0, and yet 0 comes before 2, because 0 and 1 depend on each other. */
  lemma TransitiveOrderFailsOnCycles()
    ensures var g: Graph := map[0 := [1], 1 := [0, 2], 2 := []];
      Closed(g) && Reaches(g, 0, 2) && !Reaches(g, 2, 0) && Sort(g, [1]) == [0, 2, 1]
  {
    var g: Graph := map[0 := [1], 1 := [0, 2], 2 := []];
    assert IsPath(g, [0, 1, 2], 0, 2);
    if Reaches(g, 2, 0) {
      var p :| IsPath(g, p, 2, 0);
      ReachStays(g, {2}, p, 2, 0);
    }
    var atTwo := VisitAll(g, [2], Walk({0, 1}, [0]));
    assert VisitAll(g, [], Walk({0, 1, 2}, [0])) == Walk({0, 1, 2}, [0]);
    assert {0, 1} + {2} == {0, 1, 2};
    assert atTwo == VisitAll(g, [], Walk({0, 1, 2}, [0, 2]));
    var atZero := VisitAll(g, [1], Walk({0, 1}, []));
    assert atZero == VisitAll(g, [], Walk({0, 1}, []));
    assert {1} + {0} == {0, 1};
    assert [0, 2][1..] == [2];
    assert VisitAll(g, [0, 2], Walk({1}, [])) == VisitAll(g, [2], Walk({0, 1}, [0]));
    assert {} + {1} == {1};
    assert VisitAll(g, [1], Walk({}, [])) == VisitAll(g, [], Walk({0, 1, 2}, [0, 2, 1]));
  }

  // ---- The walk itself ----

  /** The variables captured by the recursive closure of SortDependencyList. */
  class DependencySorter {
    var visited: set<Ref>   // the keys mapped to true
    var stack: seq<Ref>

    constructor ()
      ensures visited == {} && stack == []
    {
      visited := {};
      stack := [];
    }

    ghost function State(): Walk
      reads this
    {
      Walk(visited, stack)
    }

    method Visit(g: Graph, entry: Ref)
      requires Closed(g) && entry in g && visited <= g.Keys && entry !in visited
      modifies this
      ensures State() == old(VisitAll(g, [entry], State()))
      decreases g.Keys - visited
    {
      ghost var s0 := Walk(visited + {entry}, stack);
      visited := visited + {entry};
      var deps := g[entry];
      for i := 0 to |deps|
        invariant s0.visited <= visited <= g.Keys
        invariant VisitAll(g, deps, s0) == VisitAll(g, deps[i..], State())
      {
        assert deps[i..][1..] == deps[i + 1..];
        if deps[i] !in visited {
          ghost var s := State();
          Visit(g, deps[i]);
          VisitSplits(g, deps[i], deps[i + 1..], s);
          assert [deps[i]] + deps[i + 1..] == deps[i..];
        }
      }
      stack := stack + [entry];
      ghost var s := old(State());
      assert [entry][1..] == [];
      assert VisitAll(g, [entry], s) == VisitAll(g, [], State());
    }

    method SortDependencyList(g: Graph, list: seq<Ref>) returns (result: seq<Ref>)
      requires Closed(g) && In(g, list) && visited == {} && stack == []
      modifies this
      ensures result == Sort(g, list)
    {
      for i := 0 to |list|
        invariant visited <= g.Keys
        invariant VisitAll(g, list, Walk({}, [])) == VisitAll(g, list[i..], State())
      {
        assert list[i..][1..] == list[i + 1..];
        if list[i] !in visited {
          ghost var s := State();
          Visit(g, list[i]);
          VisitSplits(g, list[i], list[i + 1..], s);
          assert [list[i]] + list[i + 1..] == list[i..];
        }
      }
      result := stack;
    }
  }

  lemma VisitSplits(g: Graph, e: Ref, rest: seq<Ref>, s: Walk)
    requires Closed(g) && In(g, [e] + rest) && s.visited <= g.Keys
    ensures e in g && VisitAll(g, [e] + rest, s) == VisitAll(g, rest, VisitAll(g, [e], s))
  {
    assert e in [e] + rest;
    assert ([e] + rest)[1..] == rest && [e][1..] == [];
  }
}
