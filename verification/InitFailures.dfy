/** initDeps on any graph, cycles included: it gives up on a failing initialiser only when its walk gets there
    before it enters a cycle, and what it has called by then is still the beginning of the sorted order. */
module InitFailures {
  import opened DependencyGraph
  import opened DependencySort
  import opened DependencyWalks
  import opened Options

  /** No cycle can be reached from e, and everything it reaches initialises. */
  ghost predicate Clean(g: Graph, succeeds: Ref -> bool, e: Ref) {
    AcyclicFrom(g, e) && forall x :: Reaches(g, e, x) ==> succeeds(x)
  }

  ghost predicate AllClean(g: Graph, succeeds: Ref -> bool, es: seq<Ref>) {
    forall e :: e in es ==> Clean(g, succeeds, e)
  }

  /** p goes from dependent to dependency, each the first that is not clean, and ends in a component that
      fails although all of its dependencies are clean. */
  ghost predicate FailsAlong(g: Graph, succeeds: Ref -> bool, p: seq<Ref>) {
    && p != [] && p[0] in g
    && if |p| == 1 then !succeeds(p[0]) && AllClean(g, succeeds, g[p[0]])
       else FirstStep(g, succeeds, g[p[0]], p[1]) && FailsAlong(g, succeeds, p[1..])
  }

  /** d is listed in es behind clean entries only. */
  ghost predicate FirstStep(g: Graph, succeeds: Ref -> bool, es: seq<Ref>, d: Ref) {
    exists j :: 0 <= j < |es| && es[j] == d && AllClean(g, succeeds, es[..j])
  }

  lemma CleanDependency(g: Graph, succeeds: Ref -> bool, e: Ref, d: Ref)
    requires Clean(g, succeeds, e) && e in g && d in g[e]
    ensures Clean(g, succeeds, d) && succeeds(e)
  {
    AcyclicDependency(g, e, d);
    ReachRefl(g, e);
    ReachEdge(g, e, d);
    forall x | Reaches(g, d, x) ensures succeeds(x) {
      ReachTrans(g, e, d, x);
    }
  }

  // ---- The path is determined by where it starts ----

  /** Something that e reaches fails. */
  ghost predicate Doomed(g: Graph, succeeds: Ref -> bool, e: Ref) {
    exists x :: Reaches(g, e, x) && !succeeds(x)
  }

  lemma DoomedDependency(g: Graph, succeeds: Ref -> bool, e: Ref, d: Ref)
    requires Reaches(g, e, d) && Doomed(g, succeeds, d)
    ensures Doomed(g, succeeds, e)
  {
    var x :| Reaches(g, d, x) && !succeeds(x);
    ReachTrans(g, e, d, x);
  }

  lemma {:induction false} PathIsDoomed(g: Graph, succeeds: Ref -> bool, p: seq<Ref>)
    requires FailsAlong(g, succeeds, p)
    ensures Doomed(g, succeeds, p[0])
    decreases |p|
  {
    if |p| == 1 {
      ReachRefl(g, p[0]);
    } else {
      PathIsDoomed(g, succeeds, p[1..]);
      ReachEdge(g, p[0], p[1]);
      DoomedDependency(g, succeeds, p[0], p[1]);
    }
  }

  lemma FirstIsUnique(g: Graph, succeeds: Ref -> bool, es: seq<Ref>, c: Ref, d: Ref)
    requires FirstStep(g, succeeds, es, c) && Doomed(g, succeeds, c)
    requires FirstStep(g, succeeds, es, d) && Doomed(g, succeeds, d)
    ensures c == d
  {
    var i :| 0 <= i < |es| && es[i] == c && AllClean(g, succeeds, es[..i]);
    var j :| 0 <= j < |es| && es[j] == d && AllClean(g, succeeds, es[..j]);
    assert !Clean(g, succeeds, c) && !Clean(g, succeeds, d);
    Behind(g, succeeds, es, j, i);
    Behind(g, succeeds, es, i, j);
  }

  lemma Behind(g: Graph, succeeds: Ref -> bool, es: seq<Ref>, j: nat, i: nat)
    requires i < |es| && j < |es| && AllClean(g, succeeds, es[..j])
    ensures i < j ==> Clean(g, succeeds, es[i])
  {
    assert i < j ==> es[..j][i] == es[i];
  }

  lemma EndIsEnd(g: Graph, succeeds: Ref -> bool, p: seq<Ref>, q: seq<Ref>)
    requires FailsAlong(g, succeeds, p) && FailsAlong(g, succeeds, q) && p[0] == q[0]
    ensures |p| == 1 ==> p == q
  {
    if |q| > 1 {
      PathIsDoomed(g, succeeds, q[1..]);
      assert FirstStep(g, succeeds, g[q[0]], q[1]);
      assert |p| == 1 ==> Clean(g, succeeds, q[1]);
    } else {
      assert |p| == 1 ==> p == q;
    }
  }

  lemma {:induction false} PathIsUnique(g: Graph, succeeds: Ref -> bool, p: seq<Ref>, q: seq<Ref>)
    requires FailsAlong(g, succeeds, p) && FailsAlong(g, succeeds, q) && p[0] == q[0]
    ensures p == q
    decreases |p|
  {
    if |p| == 1 || |q| == 1 {
      EndIsEnd(g, succeeds, p, q);
      EndIsEnd(g, succeeds, q, p);
    } else {
      PathIsDoomed(g, succeeds, p[1..]);
      PathIsDoomed(g, succeeds, q[1..]);
      FirstIsUnique(g, succeeds, g[p[0]], p[1], q[1]);
      PathIsUnique(g, succeeds, p[1..], q[1..]);
      assert p == [p[0]] + p[1..] && q == [q[0]] + q[1..];
    }
  }

  lemma {:induction false} PathSuffix(g: Graph, succeeds: Ref -> bool, p: seq<Ref>, k: nat)
    requires FailsAlong(g, succeeds, p) && k < |p|
    ensures FailsAlong(g, succeeds, p[k..])
    decreases k
  {
    if k == 0 {
      assert p[0..] == p;
    } else {
      PathSuffix(g, succeeds, p[1..], k - 1);
      assert p[1..][k - 1..] == p[k..];
    }
  }

  lemma PathHasNoDuplicates(g: Graph, succeeds: Ref -> bool, p: seq<Ref>)
    requires FailsAlong(g, succeeds, p)
    ensures NoDuplicates(p)
  {
    forall i, k | 0 <= i < k < |p| ensures p[i] != p[k] {
      PathSuffix(g, succeeds, p, i);
      PathSuffix(g, succeeds, p, k);
      assert |p[i..]| != |p[k..]|;
      if p[i] == p[k] {
        PathIsUnique(g, succeeds, p[i..], p[k..]);
      }
    }
  }

  // ---- Along such a path initDeps fails, and calls what the sort emits first ----

  lemma {:induction false} VisitSequence(g: Graph, a: seq<Ref>, b: seq<Ref>, s: Walk)
    requires Closed(g) && In(g, a) && In(g, b) && s.visited <= g.Keys
    ensures In(g, a + b) && VisitAll(g, a + b, s) == VisitAll(g, b, VisitAll(g, a, s))
    decreases |a|
  {
    if a == [] {
      assert a + b == b;
    } else {
      assert (a + b)[1..] == a[1..] + b && [a[0]] + (a + b)[1..] == a + b && [a[0]] + a[1..] == a;
      VisitSplits(g, a[0], a[1..], s);
      VisitSplits(g, a[0], (a + b)[1..], s);
      VisitSequence(g, a[1..], b, VisitAll(g, [a[0]], s));
    }
  }

  lemma {:induction false} InitSequence(g: Graph, name: Names, succeeds: Ref -> bool, a: seq<Ref>, b: seq<Ref>, s: Init,
                                        depth: nat)
    requires Closed(g) && In(g, a) && In(g, b)
    requires var r := InitList(g, name, succeeds, a, s, depth); r.Some? && r.value.ok
    ensures In(g, a + b)
    ensures InitList(g, name, succeeds, a + b, s, depth)
         == InitList(g, name, succeeds, b, InitList(g, name, succeeds, a, s, depth).value.state, depth)
    decreases |a|
  {
    if a == [] {
      assert a + b == b;
    } else {
      assert (a + b)[1..] == a[1..] + b;
      InitSequence(g, name, succeeds, a[1..], b, InitOne(g, name, succeeds, a[0], s, depth).value.state, depth);
    }
  }

  lemma {:induction false} CleanWalk(g: Graph, succeeds: Ref -> bool, es: seq<Ref>, s: Walk)
    requires Closed(g) && In(g, es) && s.visited <= g.Keys
    requires AllClean(g, succeeds, es) && AllSucceed(succeeds, s.out)
    ensures AllSucceed(succeeds, VisitAll(g, es, s).out)
    decreases g.Keys - s.visited, |es|
  {
    if es == [] {
    } else if es[0] in s.visited {
      CleanWalk(g, succeeds, es[1..], s);
    } else {
      forall d | d in g[es[0]] ensures Clean(g, succeeds, d) {
        CleanDependency(g, succeeds, es[0], d);
      }
      assert Clean(g, succeeds, es[0]);
      ReachRefl(g, es[0]);
      var s0 := Walk(s.visited + {es[0]}, s.out);
      CleanWalk(g, succeeds, g[es[0]], s0);
      var inner := VisitAll(g, g[es[0]], s0);
      CleanWalk(g, succeeds, es[1..], Walk(inner.visited, inner.out + [es[0]]));
    }
  }

  /** done holds what is initialised, stack what is being visited on the way to the failure. */
  ghost predicate OnTheWay(g: Graph, succeeds: Ref -> bool, done: set<Ref>, stack: set<Ref>) {
    && done <= g.Keys && stack <= g.Keys
    && (forall x, d :: x in done && d in g[x] ==> d in done)
    && (forall x :: x in done ==> succeeds(x))
    && (forall x :: x in stack ==> Doomed(g, succeeds, x))
  }

  lemma DoneIsNotDoomed(g: Graph, succeeds: Ref -> bool, done: set<Ref>, stack: set<Ref>, x: Ref)
    requires Closed(g) && OnTheWay(g, succeeds, done, stack) && x in done
    ensures !Doomed(g, succeeds, x)
  {
    if Doomed(g, succeeds, x) {
      var y :| Reaches(g, x, y) && !succeeds(y);
      var p :| IsPath(g, p, x, y);
      ReachStays(g, done, p, x, y);
      assert false;
    }
  }

  lemma CleanSettled(g: Graph, succeeds: Ref -> bool, es: seq<Ref>, done: set<Ref>, stack: set<Ref>, depth: nat)
    requires Closed(g) && In(g, es) && AllClean(g, succeeds, es) && OnTheWay(g, succeeds, done, stack)
    requires depth >= |g.Keys|
    ensures Settled(g, es, done, stack) && AcyclicAll(g, es, depth)
  {
    forall x | x in done ensures x !in stack {
      DoneIsNotDoomed(g, succeeds, done, stack, x);
    }
    forall e | e in es ensures |ReachSet(g, e)| <= depth {
      SubsetCardinality(ReachSet(g, e), g.Keys);
    }
    forall e, x | e in es && x in stack ensures !Reaches(g, e, x) {
      if Reaches(g, e, x) {
        DoomedDependency(g, succeeds, e, x);
      }
    }
  }

  /** After the clean entries the same can be said with what they added. */
  lemma CleanAdvances(g: Graph, succeeds: Ref -> bool, es: seq<Ref>, done: set<Ref>, stack: set<Ref>, out: seq<Ref>)
    requires Closed(g) && In(g, es) && AllClean(g, succeeds, es) && OnTheWay(g, succeeds, done, stack)
    requires AllSucceed(succeeds, out)
    ensures var r := After(g, es, done, stack, out);
      && OnTheWay(g, succeeds, r.visited, stack) && AllSucceed(succeeds, r.out)
      && VisitAll(g, es, Walk(done + stack, out)) == Walk(r.visited + stack, r.out)
  {
    var s := Walk(done + stack, out);
    var r := After(g, es, done, stack, out);
    CleanSettled(g, succeeds, es, done, stack, |g.Keys|);
    AfterSettled(g, es, [], done, stack, out);
    CleanWalk(g, succeeds, es, s);
    forall x | x in r.visited ensures succeeds(x) {
      if x !in done {
        VisitReaches(g, es, s, x);
      }
    }
  }

  /** The component that fails has only clean dependencies, so no cycle is in its reach either. */
  lemma FailureIsAcyclic(g: Graph, succeeds: Ref -> bool, e: Ref, x: Ref)
    requires Closed(g) && e in g && !succeeds(e) && AllClean(g, succeeds, g[e])
    ensures AcyclicFrom(g, e)
    ensures x != e && Reaches(g, e, x) ==> !Doomed(g, succeeds, x)
  {
    forall u | u != e && Reaches(g, e, u) ensures exists d :: d in g[e] && Reaches(g, d, u) {
      var p :| IsPath(g, p, e, u);
      assert IsPath(g, p[1..], p[1], u);
    }
    forall u, d | Reaches(g, e, u) && u in g && d in g[u] ensures !Reaches(g, d, u) {
      if u != e {
        var b :| b in g[e] && Reaches(g, b, u);
        assert AcyclicFrom(g, b);
      }
    }
    if x != e && Reaches(g, e, x) {
      var b :| b in g[e] && Reaches(g, b, x);
      if Doomed(g, succeeds, x) {
        DoomedDependency(g, succeeds, b, x);
      }
    }
  }

  /** What the walk does at the end of the path. */
  lemma FollowEnd(g: Graph, name: Names, succeeds: Ref -> bool, p: seq<Ref>, done: set<Ref>, stack: set<Ref>,
                  out: seq<Ref>)
    requires Closed(g) && UniqueNames(g, name) && OnTheWay(g, succeeds, done, stack) && AllSucceed(succeeds, out)
    requires FailsAlong(g, succeeds, p) && |p| == 1 && p[0] !in stack
    ensures Fails(g, name, succeeds, p[0], done, stack, out, |p| + |g.Keys|)
  {
    var e, depth := p[0], |g.Keys|;
    FailureIsAcyclic(g, succeeds, e, e);
    forall x | x in stack ensures !Reaches(g, e, x) {
      FailureIsAcyclic(g, succeeds, e, x);
    }
    forall x | x in done ensures x !in stack {
      DoneIsNotDoomed(g, succeeds, done, stack, x);
    }
    SubsetCardinality(ReachSet(g, e), g.Keys);
    AfterOne(g, e, done, stack, out, depth);
    InitDepsSorts(g, name, succeeds, e, done, stack, out, depth);
    assert e in After(g, [e], done, stack, out).out;
  }

  /** The walk from e fails, having called what the sort of e emits up to its first failure. */
  ghost predicate Fails(g: Graph, name: Names, succeeds: Ref -> bool, e: Ref, done: set<Ref>, stack: set<Ref>,
                        out: seq<Ref>, depth: nat)
    requires Closed(g) && e in g && done <= g.Keys && stack <= g.Keys
  {
    var r := InitOne(g, name, succeeds, e, Init(NamesOf(name, done), out), depth);
    var w := After(g, [e], done, stack, out);
    && r.Some? && !r.value.ok
    && !AllSucceed(succeeds, w.out) && r.value.state.calls == UpToFailure(succeeds, w.out)
  }

  lemma EnterPath(g: Graph, succeeds: Ref -> bool, p: seq<Ref>, done: set<Ref>, stack: set<Ref>) returns (j: nat)
    requires Closed(g) && OnTheWay(g, succeeds, done, stack) && FailsAlong(g, succeeds, p)
    requires |p| > 1 && NoDuplicates(p) && forall x :: x in p ==> x !in stack
    ensures p[0] !in done && OnTheWay(g, succeeds, done, stack + {p[0]})
    ensures NoDuplicates(p[1..]) && forall x :: x in p[1..] ==> x !in stack + {p[0]}
    ensures j < |g[p[0]]| && g[p[0]][j] == p[1] && AllClean(g, succeeds, g[p[0]][..j])
    ensures FailsAlong(g, succeeds, p[1..]) && In(g, g[p[0]][..j])
  {
    j :| 0 <= j < |g[p[0]]| && g[p[0]][j] == p[1] && AllClean(g, succeeds, g[p[0]][..j]);
    PathIsDoomed(g, succeeds, p);
    if p[0] in done {
      DoneIsNotDoomed(g, succeeds, done, stack, p[0]);
    }
    forall x | x in p[1..] ensures x !in stack + {p[0]} {
      var i :| 0 <= i < |p| - 1 && p[1..][i] == x;
      assert p[i + 1] == x && p[0] != p[i + 1];
    }
  }

  /** When the walk of the first unclean dependency fails, so does that of the dependent, after the same calls. */
  lemma InnerFails(g: Graph, name: Names, succeeds: Ref -> bool, e: Ref, j: nat, done: set<Ref>, stack: set<Ref>,
                   out: seq<Ref>, depth: nat)
    requires Closed(g) && UniqueNames(g, name) && OnTheWay(g, succeeds, done, stack + {e})
    requires AllSucceed(succeeds, out) && depth > |g.Keys|
    requires e in g && e !in done && e !in stack && j < |g[e]| && AllClean(g, succeeds, g[e][..j])
    requires var a := After(g, g[e][..j], done, stack + {e}, out);
      && a.visited <= g.Keys
      && Fails(g, name, succeeds, g[e][j], a.visited, stack + {e}, a.out, depth)
    ensures Fails(g, name, succeeds, e, done, stack, out, depth + 1)
  {
    var before, inside := g[e][..j], stack + {e};
    CleanAdvances(g, succeeds, before, done, inside, out);
    var a := After(g, before, done, inside, out);
    InnerCalls(g, name, succeeds, e, j, done, stack, out, depth);
    InnerWalk(g, e, j, done, stack, out);
    var first := After(g, [g[e][j]], a.visited, inside, a.out).out;
    var all := After(g, [e], done, stack, out).out;
    assert all == first + all[|first|..];
    UpToFailureAppend(succeeds, first, all[|first|..]);
    forall x | x in first ensures x in all {
      var i :| 0 <= i < |first| && first[i] == x;
      assert all[i] == x;
    }
  }

  /** The sort of the dependent begins with the sort of the dependency and of what is listed before it. */
  lemma InnerWalk(g: Graph, e: Ref, j: nat, done: set<Ref>, stack: set<Ref>, out: seq<Ref>)
    requires Closed(g) && e in g && e !in done && e !in stack && j < |g[e]|
    requires done <= g.Keys && stack <= g.Keys && In(g, g[e][..j])
    ensures var w := VisitAll(g, g[e][..j], Walk(done + (stack + {e}), out));
      VisitAll(g, [g[e][j]], w).out <= After(g, [e], done, stack, out).out
  {
    var es := g[e];
    var s0 := Walk(done + (stack + {e}), out);
    assert es == es[..j] + es[j..] && es[j..] == [es[j]] + es[j + 1..];
    VisitSequence(g, es[..j], es[j..], s0);
    var w := VisitAll(g, es[..j], s0);
    VisitSplits(g, es[j], es[j + 1..], w);
    VisitExtends(g, es[j + 1..], VisitAll(g, [es[j]], w));
    assert s0 == Walk((done + stack) + {e}, out);
    assert [e][1..] == [];
    assert VisitAll(g, [e], Walk(done + stack, out)).out == VisitAll(g, es, s0).out + [e];
  }

  /** And initDeps returns for the dependent what it returns for the dependency. */
  lemma InnerCalls(g: Graph, name: Names, succeeds: Ref -> bool, e: Ref, j: nat, done: set<Ref>, stack: set<Ref>,
                   out: seq<Ref>, depth: nat)
    requires Closed(g) && UniqueNames(g, name) && OnTheWay(g, succeeds, done, stack + {e})
    requires AllSucceed(succeeds, out) && depth > |g.Keys|
    requires e in g && j < |g[e]| && AllClean(g, succeeds, g[e][..j]) && In(g, g[e][..j])
    ensures var a := After(g, g[e][..j], done, stack + {e}, out);
      var r := InitOne(g, name, succeeds, g[e][j], Init(NamesOf(name, a.visited), a.out), depth);
      r.Some? && !r.value.ok ==> InitOne(g, name, succeeds, e, Init(NamesOf(name, done), out), depth + 1) == r
  {
    var es := g[e];
    CleanSettled(g, succeeds, es[..j], done, stack + {e}, depth - 1);
    CleanAdvances(g, succeeds, es[..j], done, stack + {e}, out);
    InitListSorts(g, name, succeeds, es[..j], done, stack + {e}, out, depth);
    assert es == es[..j] + es[j..] && es[j..][0] == es[j];
    InitSequence(g, name, succeeds, es[..j], es[j..], Init(NamesOf(name, done), out), depth);
  }

  lemma {:induction false} FollowPath(g: Graph, name: Names, succeeds: Ref -> bool, p: seq<Ref>, done: set<Ref>,
                                      stack: set<Ref>, out: seq<Ref>)
    requires Closed(g) && UniqueNames(g, name) && OnTheWay(g, succeeds, done, stack) && AllSucceed(succeeds, out)
    requires FailsAlong(g, succeeds, p) && NoDuplicates(p) && forall x :: x in p ==> x !in stack
    ensures Fails(g, name, succeeds, p[0], done, stack, out, |p| + |g.Keys|)
    decreases |p|
  {
    hide Fails, AllSucceed, NoDuplicates, AllClean, UniqueNames;
    if |p| == 1 {
      FollowEnd(g, name, succeeds, p, done, stack, out);
    } else {
      var e := p[0];
      var j := EnterPath(g, succeeds, p, done, stack);
      var before := g[e][..j];
      CleanAdvances(g, succeeds, before, done, stack + {e}, out);
      var a := After(g, before, done, stack + {e}, out);
      FollowPath(g, name, succeeds, p[1..], a.visited, stack + {e}, a.out);
      InnerFails(g, name, succeeds, e, j, done, stack, out, |p| + |g.Keys| - 1);
    }
  }

  // ---- A walk that fails has such a path ----

  lemma CalledIsClean(g: Graph, succeeds: Ref -> bool, out: seq<Ref>, e: Ref)
    requires DependenciesFirst(g, out) && AllSucceed(succeeds, out) && e in out
    ensures Clean(g, succeeds, e)
  {
    NoCycleInside(g, out, e);
    var i :| 0 <= i < |out| && out[i] == e;
    forall x | Reaches(g, e, x) ensures succeeds(x) {
      var p :| IsPath(g, p, e, x);
      PathGoesDown(g, out, p, i, x);
    }
  }

  lemma {:induction false} CallsSucceed(g: Graph, name: Names, succeeds: Ref -> bool, e: Ref, s: Init, depth: nat)
    requires Closed(g) && e in g && AllSucceed(succeeds, s.calls)
    requires var r := InitOne(g, name, succeeds, e, s, depth); r.Some? && r.value.ok
    ensures AllSucceed(succeeds, InitOne(g, name, succeeds, e, s, depth).value.state.calls)
    decreases depth, 0
  {
    ListCallsSucceed(g, name, succeeds, g[e], s, depth - 1);
  }

  lemma {:induction false} ListCallsSucceed(g: Graph, name: Names, succeeds: Ref -> bool, es: seq<Ref>, s: Init,
                                            depth: nat)
    requires Closed(g) && In(g, es) && AllSucceed(succeeds, s.calls)
    requires var r := InitList(g, name, succeeds, es, s, depth); r.Some? && r.value.ok
    ensures AllSucceed(succeeds, InitList(g, name, succeeds, es, s, depth).value.state.calls)
    decreases depth, 1 + |es|
  {
    if es == [] {
    } else {
      CallsSucceed(g, name, succeeds, es[0], s, depth);
      ListCallsSucceed(g, name, succeeds, es[1..], InitOne(g, name, succeeds, es[0], s, depth).value.state, depth);
    }
  }

  lemma {:induction false} FailurePath(g: Graph, name: Names, succeeds: Ref -> bool, e: Ref, s: Init, depth: nat)
      returns (p: seq<Ref>)
    requires Closed(g) && e in g && UniqueNames(g, name) && InitInv(g, name, s) && AllSucceed(succeeds, s.calls)
    requires var r := InitOne(g, name, succeeds, e, s, depth); r.Some? && !r.value.ok
    ensures FailsAlong(g, succeeds, p) && p[0] == e
    decreases depth, 0
  {
    var inner := InitList(g, name, succeeds, g[e], s, depth - 1).value;
    if inner.ok {
      InitListOrders(g, name, succeeds, g[e], s, depth - 1);
      ListCallsSucceed(g, name, succeeds, g[e], s, depth - 1);
      forall d | d in g[e] ensures Clean(g, succeeds, d) {
        CalledIsClean(g, succeeds, inner.state.calls, d);
      }
      p := [e];
    } else {
      var rest := FailureInList(g, name, succeeds, g[e], s, depth - 1);
      p := [e] + rest;
      assert p[1..] == rest;
    }
  }

  lemma {:induction false} FailureInList(g: Graph, name: Names, succeeds: Ref -> bool, es: seq<Ref>, s: Init,
                                         depth: nat) returns (p: seq<Ref>)
    requires Closed(g) && In(g, es) && UniqueNames(g, name) && InitInv(g, name, s) && AllSucceed(succeeds, s.calls)
    requires var r := InitList(g, name, succeeds, es, s, depth); r.Some? && !r.value.ok
    ensures FailsAlong(g, succeeds, p) && FirstStep(g, succeeds, es, p[0])
    decreases depth, 1 + |es|
  {
    var first := InitOne(g, name, succeeds, es[0], s, depth).value;
    if first.ok {
      InitDepsOrders(g, name, succeeds, es[0], s, depth);
      CallsSucceed(g, name, succeeds, es[0], s, depth);
      CalledIsClean(g, succeeds, first.state.calls, es[0]);
      p := FailureInList(g, name, succeeds, es[1..], first.state, depth);
      var i :| 0 <= i < |es| - 1 && es[1..][i] == p[0] && AllClean(g, succeeds, es[1..][..i]);
      assert es[..i + 1] == [es[0]] + es[1..][..i];
      assert es[i + 1] == p[0];
    } else {
      p := FailurePath(g, name, succeeds, es[0], s, depth);
      assert es[..0] == [] && es[0] == p[0];
    }
  }

  // ---- The theorems ----

  /** Without a bound on the call stack: the walk comes back, and returns false. */
  ghost predicate ReturnsFalse(g: Graph, name: Names, succeeds: Ref -> bool, e: Ref)
    requires Closed(g) && e in g
  {
    exists depth :: var r := InitOne(g, name, succeeds, e, Init({}, []), depth); r.Some? && !r.value.ok
  }

  lemma PathFails(g: Graph, name: Names, succeeds: Ref -> bool, p: seq<Ref>)
    requires Closed(g) && UniqueNames(g, name) && FailsAlong(g, succeeds, p)
    ensures var r := InitOne(g, name, succeeds, p[0], Init({}, []), |p| + |g.Keys|);
      && r.Some? && !r.value.ok && r.value.state.calls == UpToFailure(succeeds, Sort(g, [p[0]]))
      && !AllSucceed(succeeds, Sort(g, [p[0]]))
  {
    PathHasNoDuplicates(g, succeeds, p);
    FollowPath(g, name, succeeds, p, {}, {}, []);
    assert NamesOf(name, {}) == {};
    var none: set<Ref> := {};
    assert none + none == none;
  }

  /** On any graph initDeps returns false exactly when its first unclean dependencies, one after the other, lead to a
      component that fails and whose own dependencies are clean. */
  lemma InitDepsFails(g: Graph, name: Names, succeeds: Ref -> bool, e: Ref)
    requires Closed(g) && e in g && UniqueNames(g, name)
    ensures ReturnsFalse(g, name, succeeds, e) <==> exists p :: FailsAlong(g, succeeds, p) && p[0] == e
  {
    if ReturnsFalse(g, name, succeeds, e) {
      var depth: nat :| var r := InitOne(g, name, succeeds, e, Init({}, []), depth); r.Some? && !r.value.ok;
      var p := FailurePath(g, name, succeeds, e, Init({}, []), depth);
    }
    if exists p :: FailsAlong(g, succeeds, p) && p[0] == e {
      var p :| FailsAlong(g, succeeds, p) && p[0] == e;
      PathFails(g, name, succeeds, p);
    }
  }

  /** On any graph, when initDeps returns at all it has called Initialize in the order SortDependencyList gives, up to
      and including the first call that fails, and it returns true when no call fails. */
  lemma InitDepsAgrees(g: Graph, name: Names, succeeds: Ref -> bool, e: Ref, depth: nat)
    requires Closed(g) && e in g && UniqueNames(g, name)
    requires InitOne(g, name, succeeds, e, Init({}, []), depth).Some?
    ensures var r := InitOne(g, name, succeeds, e, Init({}, []), depth).value;
      && r.state.calls == UpToFailure(succeeds, Sort(g, [e]))
      && r.ok == AllSucceed(succeeds, Sort(g, [e]))
  {
    var start := Init({}, []);
    if InitOne(g, name, succeeds, e, start, depth).value.ok {
      InitDepsSucceeds(g, name, succeeds, e);
      InitDepsAcyclic(g, name, succeeds, e, depth);
    } else {
      var p := FailurePath(g, name, succeeds, e, start, depth);
      PathFails(g, name, succeeds, p);
      if depth <= |p| + |g.Keys| {
        InitDeeper(g, name, succeeds, e, start, depth, |p| + |g.Keys|);
      } else {
        InitDeeper(g, name, succeeds, e, start, |p| + |g.Keys|, depth);
      }
    }
  }
}
