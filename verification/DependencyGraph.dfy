/** Directed graphs of components: reachability, cycles, and the facts about both
    that every walk of the dependency graph relies on. */
module DependencyGraph {

  /** A component reference, identified by its address. */
  type Ref = nat

  /** The dependency list of every component, in the order the dependencies were added. */
  type Graph = map<Ref, seq<Ref>>

  /** Every dependency is itself a component of the graph. */
  ghost predicate Closed(g: Graph) {
    forall n, d :: n in g && d in g[n] ==> d in g
  }

  ghost predicate In(g: Graph, es: seq<Ref>) {
    forall e :: e in es ==> e in g
  }

  ghost predicate IsPath(g: Graph, p: seq<Ref>, u: Ref, v: Ref) {
    && |p| > 0 && p[0] == u && p[|p| - 1] == v
    && forall i :: 0 <= i < |p| - 1 ==> p[i] in g && p[i + 1] in g[p[i]]
  }

  /** v can be reached from u along zero or more dependency edges. */
  ghost predicate Reaches(g: Graph, u: Ref, v: Ref) {
    exists p :: IsPath(g, p, u, v)
  }

  ghost predicate ReachesFrom(g: Graph, es: seq<Ref>, v: Ref) {
    exists e :: e in es && Reaches(g, e, v)
  }

  /** No component reachable from e depends on itself, directly or indirectly. */
  ghost predicate AcyclicFrom(g: Graph, e: Ref) {
    forall u, d :: Reaches(g, e, u) && u in g && d in g[u] ==> !Reaches(g, d, u)
  }

  function ToSet(s: seq<Ref>): set<Ref> { set x | x in s }

  ghost predicate NoDuplicates(s: seq<Ref>) {
    forall i, j :: 0 <= i < j < |s| ==> s[i] != s[j]
  }

  ghost function ReachSet(g: Graph, u: Ref): set<Ref> {
    set v | v in g.Keys && Reaches(g, u, v)
  }

  lemma ReachRefl(g: Graph, u: Ref)
    ensures Reaches(g, u, u)
  {
    assert IsPath(g, [u], u, u);
  }

  lemma ReachTrans(g: Graph, u: Ref, v: Ref, w: Ref)
    requires Reaches(g, u, v) && Reaches(g, v, w)
    ensures Reaches(g, u, w)
  {
    var p :| IsPath(g, p, u, v);
    var q :| IsPath(g, q, v, w);
    var r := p + q[1..];
    forall i | 0 <= i < |r| - 1
      ensures r[i] in g && r[i + 1] in g[r[i]]
    {
      if i >= |p| - 1 {
        assert r[i] == q[i - |p| + 1] && r[i + 1] == q[i - |p| + 2];
      }
    }
    assert IsPath(g, r, u, w);
  }

  lemma ReachEdge(g: Graph, u: Ref, d: Ref)
    requires u in g && d in g[u]
    ensures Reaches(g, u, d)
  {
    assert IsPath(g, [u, d], u, d);
  }

  /** A set that contains u and is closed under dependencies contains all that u reaches. */
  lemma {:induction false} ReachStays(g: Graph, s: set<Ref>, p: seq<Ref>, u: Ref, v: Ref)
    requires IsPath(g, p, u, v) && u in s
    requires forall x, d :: x in s && x in g && d in g[x] ==> d in s
    ensures v in s
    decreases |p|
  {
    if |p| == 1 {
    } else {
      ReachStays(g, s, p[1..], p[1], v);
    }
  }

  /** Reachability stays inside a closed graph. */
  lemma ReachInGraph(g: Graph, u: Ref, v: Ref)
    requires Closed(g) && u in g && Reaches(g, u, v)
    ensures v in g
  {
    var p :| IsPath(g, p, u, v);
    ReachStays(g, g.Keys, p, u, v);
  }

  lemma AcyclicDependency(g: Graph, u: Ref, d: Ref)
    requires AcyclicFrom(g, u) && u in g && d in g[u]
    ensures AcyclicFrom(g, d) && !Reaches(g, d, u)
  {
    ReachRefl(g, u);
    ReachEdge(g, u, d);
    forall x, y | Reaches(g, d, x) && x in g && y in g[x]
      ensures !Reaches(g, y, x)
    {
      ReachTrans(g, u, d, x);
    }
  }

  lemma CardinalityGrows(a: set<Ref>, b: set<Ref>)
    requires a < b
    ensures |a| < |b|
  {
    var x :| x in b && x !in a;
    var c := b - {x};
    assert a <= c;
    SubsetCardinality(a, c);
    assert |c| == |b| - 1;
  }

  lemma {:induction false} SubsetCardinality(a: set<Ref>, b: set<Ref>)
    requires a <= b
    ensures |a| <= |b|
  {
    if a == {} {
    } else {
      var x :| x in a;
      SubsetCardinality(a - {x}, b - {x});
    }
  }

  /** On an acyclic part of the graph the number of reachable components falls along every edge,
      which is what bounds the depth of a walk. */
  lemma RankFalls(g: Graph, u: Ref, d: Ref)
    requires Closed(g) && AcyclicFrom(g, u) && u in g && d in g[u]
    ensures |ReachSet(g, d)| < |ReachSet(g, u)|
  {
    AcyclicDependency(g, u, d);
    ReachEdge(g, u, d);
    ReachRefl(g, u);
    forall v | v in ReachSet(g, d) ensures v in ReachSet(g, u) {
      ReachTrans(g, u, d, v);
    }
    assert u in ReachSet(g, u) && u !in ReachSet(g, d);
    CardinalityGrows(ReachSet(g, d), ReachSet(g, u));
  }
}
