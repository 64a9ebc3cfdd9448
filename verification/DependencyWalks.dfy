/** The two other walks of the dependency graph: loadDeps, which marks a component on exit, and
    initDeps, which walks shared components again and guards only the call to Initialize.
    Both are recursive without a cycle check, so they are modelled with a bound on the depth of the
    call stack; None is a walk that needs a deeper stack. */
module DependencyWalks {
  import opened DependencyGraph
  import opened DependencySort
  import opened Options

  /** Component names, which m_knownComponents keeps unique. */
  type Names = Ref -> string

  ghost predicate UniqueNames(g: Graph, name: Names) {
    forall x, y :: x in g && y in g && name(x) == name(y) ==> x == y
  }

  // ---- loadDeps ----

  /** The names already loaded and the components in the order they were processed. */
  datatype Load = Load(loaded: set<string>, out: seq<Ref>)

  function LoadOne(g: Graph, name: Names, e: Ref, s: Load, depth: nat): Option<Load>
    requires Closed(g) && e in g
    decreases depth, 0
  {
    if depth == 0 then None
    else if name(e) in s.loaded then Some(s)
    else
      match LoadList(g, name, g[e], s, depth - 1)
      case None => None
      case Some(s1) => Some(Load(s1.loaded + {name(e)}, s1.out + [e]))
  }

  function LoadList(g: Graph, name: Names, es: seq<Ref>, s: Load, depth: nat): Option<Load>
    requires Closed(g) && In(g, es)
    decreases depth, 1 + |es|
  {
    if es == [] then Some(s)
    else
      match LoadOne(g, name, es[0], s, depth)
      case None => None
      case Some(s1) => LoadList(g, name, es[1..], s1, depth)
  }

  // ---- initDeps ----

  /** The names initialised so far and every call made to Initialize, in order. */
  datatype Init = Init(initialized: set<string>, calls: seq<Ref>)

  datatype InitResult = InitResult(ok: bool, state: Init)

  /** succeeds(c) is what the one call c->Initialize() returns. */
  function InitOne(g: Graph, name: Names, succeeds: Ref -> bool, e: Ref, s: Init, depth: nat): Option<InitResult>
    requires Closed(g) && e in g
    decreases depth, 0
  {
    if depth == 0 then None
    else
      match InitList(g, name, succeeds, g[e], s, depth - 1)
      case None => None
      case Some(InitResult(false, s1)) => Some(InitResult(false, s1))
      case Some(InitResult(true, s1)) =>
        if name(e) in s1.initialized then Some(InitResult(true, s1))
        else if !succeeds(e) then Some(InitResult(false, Init(s1.initialized, s1.calls + [e])))
        else Some(InitResult(true, Init(s1.initialized + {name(e)}, s1.calls + [e])))
  }

  function InitList(g: Graph, name: Names, succeeds: Ref -> bool, es: seq<Ref>, s: Init, depth: nat): Option<InitResult>
    requires Closed(g) && In(g, es)
    decreases depth, 1 + |es|
  {
    if es == [] then Some(InitResult(true, s))
    else
      match InitOne(g, name, succeeds, es[0], s, depth)
      case None => None
      case Some(InitResult(false, s1)) => Some(InitResult(false, s1))
      case Some(InitResult(true, s1)) => InitList(g, name, succeeds, es[1..], s1, depth)
  }

  // ---- A walk that returns has seen no cycle ----

  /** Every component in out comes after all of its dependencies. */
  ghost predicate DependenciesFirst(g: Graph, out: seq<Ref>) {
    forall i, d :: 0 <= i < |out| && out[i] in g && d in g[out[i]] ==> d in out[..i]
  }

  ghost predicate LoadedMatches(name: Names, s: Load) {
    forall n :: n in s.loaded <==> exists x :: x in s.out && name(x) == n
  }

  ghost predicate LoadInv(g: Graph, name: Names, s: Load) {
    LoadedMatches(name, s) && In(g, s.out) && DependenciesFirst(g, s.out)
  }

  lemma {:induction false} LoadDepsOrders(g: Graph, name: Names, e: Ref, s: Load, depth: nat)
    requires Closed(g) && e in g && UniqueNames(g, name) && LoadInv(g, name, s)
    requires LoadOne(g, name, e, s, depth).Some?
    ensures var r := LoadOne(g, name, e, s, depth).value;
      LoadInv(g, name, r) && e in r.out && s.out <= r.out
    decreases depth, 0
  {
    if name(e) !in s.loaded {
      LoadListOrders(g, name, g[e], s, depth - 1);
      var s1 := LoadList(g, name, g[e], s, depth - 1).value;
      var out := s1.out + [e];
      forall i, d | 0 <= i < |out| && out[i] in g && d in g[out[i]]
        ensures d in out[..i]
      {
        if i < |s1.out| {
          assert out[..i] == s1.out[..i];
        } else {
          assert out[..i] == s1.out;
        }
      }
      assert e in out;
      assert forall x :: x in out <==> x in s1.out || x == e;
    }
  }

  lemma {:induction false} LoadListOrders(g: Graph, name: Names, es: seq<Ref>, s: Load, depth: nat)
    requires Closed(g) && In(g, es) && UniqueNames(g, name) && LoadInv(g, name, s)
    requires LoadList(g, name, es, s, depth).Some?
    ensures var r := LoadList(g, name, es, s, depth).value;
      LoadInv(g, name, r) && (forall e :: e in es ==> e in r.out) && s.out <= r.out
    decreases depth, 1 + |es|
  {
    if es == [] {
    } else {
      LoadDepsOrders(g, name, es[0], s, depth);
      LoadListOrders(g, name, es[1..], LoadOne(g, name, es[0], s, depth).value, depth);
    }
  }

  /** Along a path inside a list with dependencies first, positions only go down. */
  lemma {:induction false} PathGoesDown(g: Graph, out: seq<Ref>, p: seq<Ref>, i: nat, v: Ref)
    requires DependenciesFirst(g, out) && i < |out| && IsPath(g, p, out[i], v)
    ensures v in out[..i + 1]
    decreases |p|
  {
    if |p| == 1 {
      assert out[..i + 1][i] == v;
    } else {
      assert out[i] == p[0] && p[1] in g[p[0]];
      assert p[1] in out[..i];
      var j :| 0 <= j < i && out[j] == p[1];
      assert IsPath(g, p[1..], out[j], v);
      hide DependenciesFirst, IsPath;
      PathGoesDown(g, out, p[1..], j, v);
      var k :| 0 <= k < j + 1 && out[k] == v;
      assert out[..i + 1][k] == v;
    }
  }

  lemma NoCycleInside(g: Graph, out: seq<Ref>, e: Ref)
    requires DependenciesFirst(g, out) && e in out
    ensures AcyclicFrom(g, e)
  {
    forall u, d | Reaches(g, e, u) && u in g && d in g[u]
      ensures !Reaches(g, d, u)
    {
      var i := FirstIndex(out, e);
      var p :| IsPath(g, p, e, u);
      PathGoesDown(g, out, p, i, u);
      var j := FirstIndex(out, u);
      assert d in out[..j];
      var k :| 0 <= k < j && out[k] == d;
      if Reaches(g, d, u) {
        var q :| IsPath(g, q, d, u);
        PathGoesDown(g, out, q, k, u);
        assert false;
      }
    }
  }

  lemma {:induction false} FirstIndex(out: seq<Ref>, e: Ref) returns (i: nat)
    requires e in out
    ensures i < |out| && out[i] == e && e !in out[..i]
  {
    if out[0] == e {
      i := 0;
    } else {
      i := FirstIndex(out[1..], e);
      assert out[..i + 1] == [out[0]] + out[1..][..i];
      i := i + 1;
    }
  }

  // ---- On an acyclic graph both walks follow SortDependencyList ----

  function NamesOf(name: Names, d: set<Ref>): set<string> { set x | x in d :: name(x) }

  /** done is closed under dependencies and nothing being visited can be reached from es. */
  ghost predicate Settled(g: Graph, es: seq<Ref>, done: set<Ref>, stack: set<Ref>) {
    && done <= g.Keys && stack <= g.Keys && done !! stack
    && (forall x, d :: x in done && d in g[x] ==> d in done)
    && (forall e, x :: e in es && x in stack ==> !Reaches(g, e, x))
  }

  ghost predicate AcyclicAll(g: Graph, es: seq<Ref>, depth: nat) {
    forall e :: e in es ==> AcyclicFrom(g, e) && |ReachSet(g, e)| <= depth
  }

  /** What the sorting walk adds to done when it starts from done + stack. */
  function After(g: Graph, es: seq<Ref>, done: set<Ref>, stack: set<Ref>, out: seq<Ref>): (r: Walk)
    requires Closed(g) && In(g, es) && done <= g.Keys && stack <= g.Keys
  {
    var w := VisitAll(g, es, Walk(done + stack, out));
    Walk(w.visited - stack, w.out)
  }

  lemma AfterSettled(g: Graph, es: seq<Ref>, rest: seq<Ref>, done: set<Ref>, stack: set<Ref>, out: seq<Ref>)
    requires Closed(g) && In(g, es) && In(g, rest) && Settled(g, es, done, stack) && Settled(g, rest, done, stack)
    ensures var r := After(g, es, done, stack, out);
      && Settled(g, rest, r.visited, stack) && done <= r.visited && ToSet(es) <= r.visited
      && VisitAll(g, es, Walk(done + stack, out)).visited == r.visited + stack
  {
    var s := Walk(done + stack, out);
    var w := VisitAll(g, es, s);
    VisitCloses(g, es, s);
    forall e | e in es ensures e in w.visited && e !in stack {
      assert e in ToSet(es);
      ReachRefl(g, e);
    }
    forall x, d | x in w.visited - stack && d in g[x]
      ensures d in w.visited - stack
    {
      if x !in done {
        VisitReaches(g, es, s, x);
        var e :| e in es && Reaches(g, e, x);
        ReachEdge(g, x, d);
        ReachTrans(g, e, x, d);
      }
    }
  }

  /** Entering e: its dependencies are settled with e on the stack. */
  lemma EnterSettled(g: Graph, e: Ref, done: set<Ref>, stack: set<Ref>, depth: nat)
    requires Closed(g) && e in g && e !in done && AcyclicFrom(g, e) && |ReachSet(g, e)| <= depth
    requires Settled(g, [e], done, stack)
    ensures e !in stack && depth > 0 && In(g, g[e])
    ensures Settled(g, g[e], done, stack + {e}) && AcyclicAll(g, g[e], depth - 1)
  {
    assert e in [e];
    ReachRefl(g, e);
    assert e in ReachSet(g, e);
    forall d | d in g[e]
      ensures AcyclicFrom(g, d) && |ReachSet(g, d)| <= depth - 1
      ensures forall x :: x in stack + {e} ==> !Reaches(g, d, x)
    {
      AcyclicDependency(g, e, d);
      RankFalls(g, e, d);
      ReachEdge(g, e, d);
      forall x | x in stack ensures !Reaches(g, d, x) {
        if Reaches(g, d, x) {
          ReachTrans(g, e, d, x);
        }
      }
    }
  }

  lemma SettledParts(g: Graph, es: seq<Ref>, done: set<Ref>, stack: set<Ref>, depth: nat)
    requires es != [] && Settled(g, es, done, stack) && AcyclicAll(g, es, depth) && In(g, es)
    ensures Settled(g, [es[0]], done, stack) && Settled(g, es[1..], done, stack)
    ensures AcyclicAll(g, [es[0]], depth) && AcyclicAll(g, es[1..], depth) && In(g, es[1..])
  {
  }

  /** Walking one entry of the sort: already done, or its dependencies and then the entry itself. */
  lemma AfterOne(g: Graph, e: Ref, done: set<Ref>, stack: set<Ref>, out: seq<Ref>, depth: nat)
    requires Closed(g) && e in g && AcyclicFrom(g, e) && |ReachSet(g, e)| <= depth
    requires Settled(g, [e], done, stack)
    ensures e in done ==> After(g, [e], done, stack, out) == Walk(done, out)
    ensures e !in done ==> (
      && In(g, g[e])
      && var r := After(g, g[e], done, stack + {e}, out);
         After(g, [e], done, stack, out) == Walk(r.visited + {e}, r.out + [e]))
  {
    var s := Walk(done + stack, out);
    assert [e][1..] == [];
    if e !in done {
      EnterSettled(g, e, done, stack, depth);
      AfterSettled(g, g[e], [], done, stack + {e}, out);
      assert done + stack + {e} == done + (stack + {e});
      var r := After(g, g[e], done, stack + {e}, out);
      var inner := VisitAll(g, g[e], Walk(s.visited + {e}, out));
      assert inner.visited - stack == r.visited + {e};
      assert VisitAll(g, [], Walk(inner.visited, inner.out + [e])) == Walk(inner.visited, inner.out + [e]);
    } else {
      assert done + stack - stack == done;
      assert VisitAll(g, [], s) == s;
    }
  }

  lemma AfterSplits(g: Graph, es: seq<Ref>, done: set<Ref>, stack: set<Ref>, out: seq<Ref>)
    requires Closed(g) && In(g, es) && es != [] && Settled(g, es, done, stack)
    requires Settled(g, [es[0]], done, stack) && Settled(g, es[1..], done, stack)
    ensures var r := After(g, [es[0]], done, stack, out);
      && r.visited <= g.Keys
      && After(g, es, done, stack, out) == After(g, es[1..], r.visited, stack, r.out)
  {
    AfterSettled(g, [es[0]], es[1..], done, stack, out);
    assert [es[0]] + es[1..] == es;
    VisitSplits(g, es[0], es[1..], Walk(done + stack, out));
  }

  lemma {:induction false} LoadDepsSorts(g: Graph, name: Names, e: Ref, done: set<Ref>, stack: set<Ref>,
                                         out: seq<Ref>, depth: nat)
    requires Closed(g) && e in g && UniqueNames(g, name)
    requires AcyclicFrom(g, e) && |ReachSet(g, e)| <= depth && Settled(g, [e], done, stack)
    ensures var r := After(g, [e], done, stack, out);
      LoadOne(g, name, e, Load(NamesOf(name, done), out), depth + 1) == Some(Load(NamesOf(name, r.visited), r.out))
    decreases depth + 1, 0
  {
    AfterOne(g, e, done, stack, out, depth);
    if e !in done {
      EnterSettled(g, e, done, stack, depth);
      AfterSettled(g, g[e], [], done, stack + {e}, out);
      LoadListSorts(g, name, g[e], done, stack + {e}, out, depth);
      var r := After(g, g[e], done, stack + {e}, out);
      assert NamesOf(name, r.visited + {e}) == NamesOf(name, r.visited) + {name(e)};
      assert name(e) !in NamesOf(name, done);
    }
  }

  lemma {:induction false} LoadListSorts(g: Graph, name: Names, es: seq<Ref>, done: set<Ref>, stack: set<Ref>,
                                         out: seq<Ref>, depth: nat)
    requires Closed(g) && In(g, es) && UniqueNames(g, name) && Settled(g, es, done, stack)
    requires es != [] ==> depth > 0
    requires depth > 0 ==> AcyclicAll(g, es, depth - 1)
    ensures var r := After(g, es, done, stack, out);
      LoadList(g, name, es, Load(NamesOf(name, done), out), depth) == Some(Load(NamesOf(name, r.visited), r.out))
    decreases depth, 1 + |es|
  {
    if es == [] {
      assert done + stack - stack == done;
    } else {
      SettledParts(g, es, done, stack, depth - 1);
      AfterSettled(g, [es[0]], es[1..], done, stack, out);
      AfterSplits(g, es, done, stack, out);
      assert es[0] in [es[0]];
      LoadDepsSorts(g, name, es[0], done, stack, out, depth - 1);
      var r := After(g, [es[0]], done, stack, out);
      LoadListSorts(g, name, es[1..], r.visited, stack, r.out, depth);
    }
  }

  // ---- initDeps with initialisers that may fail ----

  ghost predicate AllSucceed(succeeds: Ref -> bool, out: seq<Ref>) {
    forall x :: x in out ==> succeeds(x)
  }

  /** The calls made when the first failing call is the last one. */
  function UpToFailure(succeeds: Ref -> bool, out: seq<Ref>): seq<Ref> {
    if out == [] then []
    else if !succeeds(out[0]) then [out[0]]
    else [out[0]] + UpToFailure(succeeds, out[1..])
  }

  lemma {:induction false} UpToFailureAppend(succeeds: Ref -> bool, a: seq<Ref>, b: seq<Ref>)
    ensures AllSucceed(succeeds, a) ==> UpToFailure(succeeds, a + b) == a + UpToFailure(succeeds, b)
    ensures !AllSucceed(succeeds, a) ==> UpToFailure(succeeds, a + b) == UpToFailure(succeeds, a)
  {
    if a == [] {
      assert a + b == b;
    } else {
      assert (a + b)[1..] == a[1..] + b;
      UpToFailureAppend(succeeds, a[1..], b);
      assert AllSucceed(succeeds, a) <==> succeeds(a[0]) && AllSucceed(succeeds, a[1..]);
    }
  }

  lemma {:induction false} VisitExtends(g: Graph, es: seq<Ref>, s: Walk)
    requires Closed(g) && In(g, es) && s.visited <= g.Keys
    ensures s.out <= VisitAll(g, es, s).out
    decreases g.Keys - s.visited, |es|
  {
    if es == [] {
    } else {
      if es[0] in s.visited {
        VisitExtends(g, es[1..], s);
      } else {
        var s0 := Walk(s.visited + {es[0]}, s.out);
        VisitExtends(g, g[es[0]], s0);
        var inner := VisitAll(g, g[es[0]], s0);
        VisitExtends(g, es[1..], Walk(inner.visited, inner.out + [es[0]]));
      }
    }
  }

  /** What a walk that follows the sort to r returns: everything, or the calls up to the first failure. */
  ghost predicate FollowsSort(name: Names, succeeds: Ref -> bool, r: Walk, actual: Option<InitResult>) {
    && actual.Some?
    && (AllSucceed(succeeds, r.out) ==> actual.value == InitResult(true, Init(NamesOf(name, r.visited), r.out)))
    && (!AllSucceed(succeeds, r.out) ==>
          !actual.value.ok && actual.value.state.calls == UpToFailure(succeeds, r.out))
  }

  /** Re-walking a finished component changes nothing. */
  lemma DoneAgain(g: Graph, e: Ref, done: set<Ref>, stack: set<Ref>, out: seq<Ref>, depth: nat)
    requires Closed(g) && e in done && done <= g.Keys && AcyclicFrom(g, e) && |ReachSet(g, e)| <= depth
    requires Settled(g, [e], done, stack)
    ensures depth > 0 && In(g, g[e]) && Settled(g, g[e], done, stack) && AcyclicAll(g, g[e], depth - 1)
    ensures After(g, g[e], done, stack, out) == Walk(done, out)
  {
    assert e in [e];
    ReachRefl(g, e);
    assert e in ReachSet(g, e);
    forall d | d in g[e]
      ensures AcyclicFrom(g, d) && |ReachSet(g, d)| <= depth - 1
      ensures forall x :: x in stack ==> !Reaches(g, d, x)
    {
      AcyclicDependency(g, e, d);
      RankFalls(g, e, d);
      ReachEdge(g, e, d);
      forall x | x in stack ensures !Reaches(g, d, x) {
        if Reaches(g, d, x) {
          ReachTrans(g, e, d, x);
        }
      }
    }
    AllVisited(g, g[e], Walk(done + stack, out));
    assert done + stack - stack == done;
  }

  lemma {:induction false} AllVisited(g: Graph, es: seq<Ref>, s: Walk)
    requires Closed(g) && In(g, es) && s.visited <= g.Keys && forall e :: e in es ==> e in s.visited
    ensures VisitAll(g, es, s) == s
  {
    if es == [] {
    } else {
      AllVisited(g, es[1..], s);
    }
  }

  lemma {:induction false} InitDepsSorts(g: Graph, name: Names, succeeds: Ref -> bool, e: Ref, done: set<Ref>,
                                         stack: set<Ref>, out: seq<Ref>, depth: nat)
    requires Closed(g) && e in g && UniqueNames(g, name) && AllSucceed(succeeds, out)
    requires AcyclicFrom(g, e) && |ReachSet(g, e)| <= depth && Settled(g, [e], done, stack)
    ensures FollowsSort(name, succeeds, After(g, [e], done, stack, out),
                        InitOne(g, name, succeeds, e, Init(NamesOf(name, done), out), depth + 1))
    decreases depth + 1, 0
  {
    AfterOne(g, e, done, stack, out, depth);
    if e in done {
      DoneAgain(g, e, done, stack, out, depth);
      InitListSorts(g, name, succeeds, g[e], done, stack, out, depth);
      assert name(e) in NamesOf(name, done);
    } else {
      EnterSettled(g, e, done, stack, depth);
      AfterSettled(g, g[e], [], done, stack + {e}, out);
      InitListSorts(g, name, succeeds, g[e], done, stack + {e}, out, depth);
      var r := After(g, g[e], done, stack + {e}, out);
      assert NamesOf(name, r.visited + {e}) == NamesOf(name, r.visited) + {name(e)};
      assert e !in r.visited;
      assert name(e) !in NamesOf(name, r.visited);
      UpToFailureAppend(succeeds, r.out, [e]);
      assert AllSucceed(succeeds, r.out + [e]) <==> AllSucceed(succeeds, r.out) && succeeds(e);
    }
  }

  lemma {:induction false} InitListSorts(g: Graph, name: Names, succeeds: Ref -> bool, es: seq<Ref>, done: set<Ref>,
                                         stack: set<Ref>, out: seq<Ref>, depth: nat)
    requires Closed(g) && In(g, es) && UniqueNames(g, name) && Settled(g, es, done, stack) && AllSucceed(succeeds, out)
    requires es != [] ==> depth > 0
    requires depth > 0 ==> AcyclicAll(g, es, depth - 1)
    ensures FollowsSort(name, succeeds, After(g, es, done, stack, out),
                        InitList(g, name, succeeds, es, Init(NamesOf(name, done), out), depth))
    decreases depth, 1 + |es|
  {
    if es == [] {
      assert done + stack - stack == done;
    } else {
      SettledParts(g, es, done, stack, depth - 1);
      AfterSettled(g, [es[0]], es[1..], done, stack, out);
      AfterSplits(g, es, done, stack, out);
      assert es[0] in [es[0]];
      InitDepsSorts(g, name, succeeds, es[0], done, stack, out, depth - 1);
      var r := After(g, [es[0]], done, stack, out);
      VisitExtends(g, es[1..], Walk(r.visited + stack, r.out));
      var r' := After(g, es[1..], r.visited, stack, r.out);
      if AllSucceed(succeeds, r.out) {
        InitListSorts(g, name, succeeds, es[1..], r.visited, stack, r.out, depth);
      } else {
        assert r'.out == r.out + r'.out[|r.out|..];
        UpToFailureAppend(succeeds, r.out, r'.out[|r.out|..]);
      }
    }
  }

  // ---- A deeper stack does not change the result ----

  lemma {:induction false} LoadDeeper(g: Graph, name: Names, e: Ref, s: Load, depth: nat, deeper: nat)
    requires Closed(g) && e in g && depth <= deeper && LoadOne(g, name, e, s, depth).Some?
    ensures LoadOne(g, name, e, s, deeper) == LoadOne(g, name, e, s, depth)
    decreases depth, 0
  {
    if name(e) !in s.loaded {
      LoadListDeeper(g, name, g[e], s, depth - 1, deeper - 1);
    }
  }

  lemma {:induction false} LoadListDeeper(g: Graph, name: Names, es: seq<Ref>, s: Load, depth: nat, deeper: nat)
    requires Closed(g) && In(g, es) && depth <= deeper && LoadList(g, name, es, s, depth).Some?
    ensures LoadList(g, name, es, s, deeper) == LoadList(g, name, es, s, depth)
    decreases depth, 1 + |es|
  {
    if es == [] {
    } else {
      LoadDeeper(g, name, es[0], s, depth, deeper);
      LoadListDeeper(g, name, es[1..], LoadOne(g, name, es[0], s, depth).value, depth, deeper);
    }
  }

  lemma {:induction false} InitDeeper(g: Graph, name: Names, succeeds: Ref -> bool, e: Ref, s: Init, depth: nat,
                                      deeper: nat)
    requires Closed(g) && e in g && depth <= deeper && InitOne(g, name, succeeds, e, s, depth).Some?
    ensures InitOne(g, name, succeeds, e, s, deeper) == InitOne(g, name, succeeds, e, s, depth)
    decreases depth, 0
  {
    InitListDeeper(g, name, succeeds, g[e], s, depth - 1, deeper - 1);
  }

  lemma {:induction false} InitListDeeper(g: Graph, name: Names, succeeds: Ref -> bool, es: seq<Ref>, s: Init,
                                          depth: nat, deeper: nat)
    requires Closed(g) && In(g, es) && depth <= deeper && InitList(g, name, succeeds, es, s, depth).Some?
    ensures InitList(g, name, succeeds, es, s, deeper) == InitList(g, name, succeeds, es, s, depth)
    decreases depth, 1 + |es|
  {
    if es == [] {
    } else {
      InitDeeper(g, name, succeeds, es[0], s, depth, deeper);
      var r := InitOne(g, name, succeeds, es[0], s, depth).value;
      if r.ok {
        InitListDeeper(g, name, succeeds, es[1..], r.state, depth, deeper);
      }
    }
  }

  // ---- A successful initDeps has seen no cycle either ----

  ghost predicate InitInv(g: Graph, name: Names, s: Init) {
    LoadInv(g, name, Load(s.initialized, s.calls))
  }

  lemma {:induction false} InitDepsOrders(g: Graph, name: Names, succeeds: Ref -> bool, e: Ref, s: Init, depth: nat)
    requires Closed(g) && e in g && UniqueNames(g, name) && InitInv(g, name, s)
    requires var r := InitOne(g, name, succeeds, e, s, depth); r.Some? && r.value.ok
    ensures var r := InitOne(g, name, succeeds, e, s, depth).value.state;
      InitInv(g, name, r) && e in r.calls && s.calls <= r.calls
    decreases depth, 0
  {
    InitListOrders(g, name, succeeds, g[e], s, depth - 1);
    var s1 := InitList(g, name, succeeds, g[e], s, depth - 1).value.state;
    if name(e) !in s1.initialized {
      var out := s1.calls + [e];
      forall i, d | 0 <= i < |out| && out[i] in g && d in g[out[i]]
        ensures d in out[..i]
      {
        if i < |s1.calls| {
          assert out[..i] == s1.calls[..i];
        } else {
          assert out[..i] == s1.calls;
        }
      }
      assert e in out;
      assert forall x :: x in out <==> x in s1.calls || x == e;
    }
  }

  lemma {:induction false} InitListOrders(g: Graph, name: Names, succeeds: Ref -> bool, es: seq<Ref>, s: Init,
                                          depth: nat)
    requires Closed(g) && In(g, es) && UniqueNames(g, name) && InitInv(g, name, s)
    requires var r := InitList(g, name, succeeds, es, s, depth); r.Some? && r.value.ok
    ensures var r := InitList(g, name, succeeds, es, s, depth).value.state;
      InitInv(g, name, r) && (forall e :: e in es ==> e in r.calls) && s.calls <= r.calls
    decreases depth, 1 + |es|
  {
    if es == [] {
    } else {
      InitDepsOrders(g, name, succeeds, es[0], s, depth);
      InitListOrders(g, name, succeeds, es[1..], InitOne(g, name, succeeds, es[0], s, depth).value.state, depth);
    }
  }

  // ---- The theorems ----

  lemma StartSettled(g: Graph, e: Ref)
    requires Closed(g) && e in g
    ensures Settled(g, [e], {}, {}) && After(g, [e], {}, {}, []).out == Sort(g, [e])
  {
    var none: set<Ref> := {};
    assert none + none == none;
  }

  /** loadDeps returns exactly when no cycle can be reached from the component it is given,
      and then it has processed exactly the sequence SortDependencyList gives for that component. */
  lemma LoadDepsAgrees(g: Graph, name: Names, e: Ref)
    requires Closed(g) && e in g && UniqueNames(g, name)
    ensures (exists depth :: LoadOne(g, name, e, Load({}, []), depth).Some?) <==> AcyclicFrom(g, e)
    ensures forall depth :: var r := LoadOne(g, name, e, Load({}, []), depth); r.Some? ==> r.value.out == Sort(g, [e])
  {
    var start := Load({}, []);
    forall depth: nat | LoadOne(g, name, e, start, depth).Some? ensures AcyclicFrom(g, e) {
      LoadDepsOrders(g, name, e, start, depth);
      NoCycleInside(g, LoadOne(g, name, e, start, depth).value.out, e);
    }
    if AcyclicFrom(g, e) {
      StartSettled(g, e);
      var enough := |ReachSet(g, e)| + 1;
      LoadDepsSorts(g, name, e, {}, {}, [], enough - 1);
      assert NamesOf(name, {}) == {};
      assert LoadOne(g, name, e, start, enough).Some?;
      forall depth: nat | LoadOne(g, name, e, start, depth).Some?
        ensures LoadOne(g, name, e, start, depth).value.out == Sort(g, [e])
      {
        if depth <= enough {
          LoadDeeper(g, name, e, start, depth, enough);
        } else {
          LoadDeeper(g, name, e, start, enough, depth);
        }
      }
    }
  }

  /** On an acyclic graph initDeps calls Initialize in the order SortDependencyList gives, up to and
      including the first call that fails, and returns true when no call fails. */
  lemma InitDepsAcyclic(g: Graph, name: Names, succeeds: Ref -> bool, e: Ref, depth: nat)
    requires Closed(g) && e in g && UniqueNames(g, name) && AcyclicFrom(g, e)
    ensures depth > |ReachSet(g, e)| ==> InitOne(g, name, succeeds, e, Init({}, []), depth).Some?
    ensures var r := InitOne(g, name, succeeds, e, Init({}, []), depth);
      r.Some? ==>
        && r.value.state.calls == UpToFailure(succeeds, Sort(g, [e]))
        && r.value.ok == AllSucceed(succeeds, Sort(g, [e]))
  {
    var start := Init({}, []);
    StartSettled(g, e);
    var enough := |ReachSet(g, e)| + 1;
    InitDepsSorts(g, name, succeeds, e, {}, {}, [], enough - 1);
    assert NamesOf(name, {}) == {};
    UpToFailureAppend(succeeds, Sort(g, [e]), []);
    assert Sort(g, [e]) + [] == Sort(g, [e]);
    if depth >= enough {
      InitDeeper(g, name, succeeds, e, start, enough, depth);
    } else if InitOne(g, name, succeeds, e, start, depth).Some? {
      InitDeeper(g, name, succeeds, e, start, depth, enough);
    }
  }

  /** initDeps returns true exactly when no cycle is reachable and every reachable component initialises. */
  lemma InitDepsSucceeds(g: Graph, name: Names, succeeds: Ref -> bool, e: Ref)
    requires Closed(g) && e in g && UniqueNames(g, name)
    ensures (exists depth :: var r := InitOne(g, name, succeeds, e, Init({}, []), depth); r.Some? && r.value.ok)
       <==> AcyclicFrom(g, e) && forall x :: Reaches(g, e, x) ==> succeeds(x)
  {
    var start := Init({}, []);
    SortExact(g, [e]);
    assert e in [e];
    if AcyclicFrom(g, e) && forall x :: Reaches(g, e, x) ==> succeeds(x) {
      var depth := |ReachSet(g, e)| + 1;
      InitDepsAcyclic(g, name, succeeds, e, depth);
      assert InitOne(g, name, succeeds, e, start, depth).value.ok;
    }
    forall depth: nat | var r := InitOne(g, name, succeeds, e, start, depth); r.Some? && r.value.ok
      ensures AcyclicFrom(g, e) && forall x :: Reaches(g, e, x) ==> succeeds(x)
    {
      InitDepsOrders(g, name, succeeds, e, start, depth);
      NoCycleInside(g, InitOne(g, name, succeeds, e, start, depth).value.state.calls, e);
      InitDepsAcyclic(g, name, succeeds, e, depth);
      forall x | Reaches(g, e, x) ensures succeeds(x) {
        assert x in Sort(g, [e]);
      }
    }
  }

  // ---- The walks themselves ----

  /** The variables captured by the loadDeps closure. */
  class DepsLoader {
    var depsLoaded: set<string>
    var processed: seq<Ref>

    constructor ()
      ensures depsLoaded == {} && processed == []
    {
      depsLoaded := {};
      processed := [];
    }

    ghost function State(): Load
      reads this
    {
      Load(depsLoaded, processed)
    }

    /** depth is the room left on the call stack; the walk of a cyclic graph never has enough. */
    method LoadDeps(g: Graph, name: Names, compRef: Ref, ghost depth: nat)
      requires Closed(g) && compRef in g
      requires LoadOne(g, name, compRef, State(), depth).Some?
      modifies this
      ensures Some(State()) == old(LoadOne(g, name, compRef, State(), depth))
      decreases depth
    {
      if name(compRef) in depsLoaded {
        return;
      }
      var deps := g[compRef];
      ghost var s0 := State();
      for i := 0 to |deps|
        invariant LoadList(g, name, deps, s0, depth - 1).Some?
        invariant LoadList(g, name, deps, s0, depth - 1) == LoadList(g, name, deps[i..], State(), depth - 1)
      {
        assert deps[i..][0] == deps[i] && deps[i..][1..] == deps[i + 1..];
        LoadDeps(g, name, deps[i], depth - 1);
      }
      depsLoaded := depsLoaded + {name(compRef)};
      processed := processed + [compRef];
    }
  }

  /** The variables captured by the initDeps closure. */
  class DepsInitializer {
    var initialized: set<string>
    var calls: seq<Ref>

    constructor ()
      ensures initialized == {} && calls == []
    {
      initialized := {};
      calls := [];
    }

    ghost function State(): Init
      reads this
    {
      Init(initialized, calls)
    }

    method InitDeps(g: Graph, name: Names, succeeds: Ref -> bool, data: Ref, ghost depth: nat) returns (ok: bool)
      requires Closed(g) && data in g
      requires InitOne(g, name, succeeds, data, State(), depth).Some?
      modifies this
      ensures Some(InitResult(ok, State())) == old(InitOne(g, name, succeeds, data, State(), depth))
      decreases depth
    {
      var deps := g[data];
      ghost var s0 := State();
      for i := 0 to |deps|
        invariant InitList(g, name, succeeds, deps, s0, depth - 1).Some?
        invariant InitList(g, name, succeeds, deps, s0, depth - 1)
          == InitList(g, name, succeeds, deps[i..], State(), depth - 1)
      {
        assert deps[i..][0] == deps[i] && deps[i..][1..] == deps[i + 1..];
        var initOk := InitDeps(g, name, succeeds, deps[i], depth - 1);
        if !initOk {
          return false;
        }
      }
      if name(data) !in initialized {
        calls := calls + [data];
        if !succeeds(data) {
          return false;
        }
        initialized := initialized + {name(data)};
      }
      return true;
    }
  }
}
