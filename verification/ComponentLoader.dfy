/** Resolving dependencies to components and loading the components in dependency order. */
module ComponentLoader {
  import opened DependencyGraph
  import opened DependencySort
  import CId = ComponentId
  import opened Sequences

  datatype Info = Info(name: string, provided: seq<CId.Id>, depends: seq<CId.Id>)

  datatype Outcome<T> = Done(value: T) | FatalError

  /** The components known to the loader, in the iteration order of its map, and what each declares. */
  datatype Known = Known(order: seq<Ref>, info: map<Ref, Info>)

  ghost predicate Listed(k: Known) {
    forall c :: c in k.order <==> c in k.info
  }

  /** The loader's map is keyed by component name, so no two components share one. */
  ghost predicate UniqueNames(k: Known) {
    forall c, d :: c in k.info && d in k.info && k.info[c].name == k.info[d].name ==> c == d
  }

  // ---- Resolution ----

  ghost predicate Provides(i: Info, dependency: CId.Id) {
    exists p :: p in i.provided && CId.Matches(dependency, p)
  }

  predicate IsVendor(dependency: CId.Id) { CId.Category(dependency, 0) == "vendor" }

  ghost predicate Resolvable(k: Known, dependency: CId.Id) {
    exists c :: c in k.info && Provides(k.info[c], dependency)
  }

  /** The first component in iteration order that provides the dependency, if any does. */
  ghost function FirstProvider(k: Known, order: seq<Ref>, dependency: CId.Id): (r: seq<Ref>)
    requires forall c :: c in order ==> c in k.info
    ensures r == [] <==> forall c :: c in order ==> !Provides(k.info[c], dependency)
    ensures r != [] ==> |r| == 1 && r[0] in order && Provides(k.info[r[0]], dependency)
  {
    if order == [] then []
    else if Provides(k.info[order[0]], dependency) then [order[0]]
    else FirstProvider(k, order[1..], dependency)
  }

  /** The components a dependency list resolves to; dependencies on vendor components may stay unresolved. */
  ghost function Resolve(k: Known, depends: seq<CId.Id>): Outcome<seq<Ref>>
    requires Listed(k)
  {
    if depends == [] then Done([])
    else
      var first := FirstProvider(k, k.order, depends[0]);
      if first == [] && !IsVendor(depends[0]) then FatalError
      else
        match Resolve(k, depends[1..])
        case FatalError => FatalError
        case Done(rest) => Done(first + rest)
  }

  /** Resolution stops the program exactly when some non-vendor dependency has no provider. */
  lemma {:induction false} ResolveFails(k: Known, depends: seq<CId.Id>)
    requires Listed(k)
    ensures Resolve(k, depends).FatalError? <==> exists d :: d in depends && !IsVendor(d) && !Resolvable(k, d)
  {
    if depends == [] {
    } else {
      ResolveFails(k, depends[1..]);
      assert forall d :: d in depends <==> d == depends[0] || d in depends[1..];
    }
  }

  /** c is the first of the known components with a provided identifier that matches d. */
  ghost predicate FirstWith(k: Known, order: seq<Ref>, d: CId.Id, c: Ref)
    requires forall c :: c in order ==> c in k.info
  {
    exists i :: 0 <= i < |order| && order[i] == c && (exists p :: p in k.info[c].provided && CId.Matches(d, p))
      && forall j, p :: 0 <= j < i && p in k.info[order[j]].provided ==> !CId.Matches(d, p)
  }

  lemma {:induction false} FirstIndex(k: Known, order: seq<Ref>, d: CId.Id) returns (i: nat)
    requires (forall c :: c in order ==> c in k.info) && FirstProvider(k, order, d) != []
    ensures i < |order| && FirstProvider(k, order, d) == [order[i]] && Provides(k.info[order[i]], d)
    ensures forall j :: 0 <= j < i ==> !Provides(k.info[order[j]], d)
    decreases |order|
  {
    hide Provides;
    if Provides(k.info[order[0]], d) {
      i := 0;
    } else {
      i := FirstIndex(k, order[1..], d);
      assert forall j :: 0 < j < i + 1 ==> order[j] == order[1..][j - 1];
      i := i + 1;
    }
  }

  lemma FirstProviderFirst(k: Known, order: seq<Ref>, d: CId.Id, c: Ref)
    requires forall c :: c in order ==> c in k.info
    ensures FirstProvider(k, order, d) == [c] <==> FirstWith(k, order, d, c)
  {
    if FirstProvider(k, order, d) != [] {
      var i := FirstIndex(k, order, d);
      hide FirstProvider;
      assert forall j, p :: 0 <= j < i && p in k.info[order[j]].provided ==>
        !Provides(k.info[order[j]], d) && !CId.Matches(d, p);
      assert FirstWith(k, order, d, order[i]);
      if FirstWith(k, order, d, c) {
        var i' :| 0 <= i' < |order| && order[i'] == c && (exists p :: p in k.info[c].provided && CId.Matches(d, p))
          && forall j, p :: 0 <= j < i' && p in k.info[order[j]].provided ==> !CId.Matches(d, p);
        assert Provides(k.info[order[i']], d) && !(i' < i) && !(i < i');
      }
    }
  }

  /** One dependency: the first provider there is; without one it is fatal unless the first category is vendor. */
  lemma ResolveSingle(k: Known, d: CId.Id)
    requires Listed(k)
    ensures forall c: Ref :: Resolve(k, [d]) == Done([c]) <==> FirstWith(k, k.order, d, c)
    ensures Resolve(k, [d]).FatalError? <==>
      (d.categories == [] || d.categories[0] != "vendor") && forall c: Ref :: !FirstWith(k, k.order, d, c)
  {
    var first := FirstProvider(k, k.order, d);
    assert [d][1..] == [] && first + [] == first;
    forall c: Ref ensures FirstProvider(k, k.order, d) == [c] <==> FirstWith(k, k.order, d, c) {
      FirstProviderFirst(k, k.order, d, c);
    }
    if first != [] {
      var i := FirstIndex(k, k.order, d);
    }
    hide FirstWith, FirstProvider, Provides;
  }

  /** Dependencies are resolved one after the other. */
  lemma {:induction false} ResolveAppend(k: Known, a: seq<CId.Id>, b: seq<CId.Id>)
    requires Listed(k)
    ensures Resolve(k, a + b) ==
      if Resolve(k, a).FatalError? || Resolve(k, b).FatalError? then FatalError
      else Done(Resolve(k, a).value + Resolve(k, b).value)
    decreases |a|
  {
    if a == [] {
      assert a + b == b;
      assert Resolve(k, b).Done? ==> [] + Resolve(k, b).value == Resolve(k, b).value;
    } else {
      assert (a + b)[0] == a[0] && (a + b)[1..] == a[1..] + b;
      ResolveAppend(k, a[1..], b);
      hide FirstProvider, IsVendor;
      if Resolve(k, a).Done? && Resolve(k, b).Done? {
        Regroup(FirstProvider(k, k.order, a[0]), Resolve(k, a[1..]).value, Resolve(k, b).value);
      }
    }
  }

  lemma ResolveHead(k: Known, depends: seq<CId.Id>)
    requires Listed(k) && Resolve(k, depends).Done? && depends != []
    ensures Resolve(k, depends[1..]).Done?
    ensures Resolve(k, depends).value == FirstProvider(k, k.order, depends[0]) + Resolve(k, depends[1..]).value
  {
  }

  lemma ProviderKnown(k: Known, d: CId.Id, c: Ref)
    requires Listed(k) && c in FirstProvider(k, k.order, d)
    ensures c in k.info
  {
  }

  lemma {:induction false} ResolveKnown(k: Known, depends: seq<CId.Id>)
    requires Listed(k) && Resolve(k, depends).Done?
    ensures forall c :: c in Resolve(k, depends).value ==> c in k.info
    decreases |depends|
  {
    if depends == [] {
    } else {
      hide *;
      ResolveHead(k, depends);
      ResolveKnown(k, depends[1..]);
      var first, rest := FirstProvider(k, k.order, depends[0]), Resolve(k, depends[1..]).value;
      forall c | c in first + rest ensures c in k.info {
        if c in first {
          ProviderKnown(k, depends[0], c);
        }
      }
    }
  }

  lemma {:induction false} ResolveMeets(k: Known, depends: seq<CId.Id>, d: CId.Id)
    requires Listed(k) && Resolve(k, depends).Done? && d in depends && Resolvable(k, d)
    ensures exists c :: c in Resolve(k, depends).value && c in k.info && Provides(k.info[c], d)
    decreases |depends|
  {
    var first, r := FirstProvider(k, k.order, depends[0]), Resolve(k, depends).value;
    hide Provides, IsVendor;
    if d == depends[0] {
      assert first != [] && r[0] == first[0];
    } else {
      var rest := Resolve(k, depends[1..]).value;
      ResolveMeets(k, depends[1..], d);
      var c :| c in rest && c in k.info && Provides(k.info[c], d);
      assert r == first + rest && c in r;
    }
  }

  /** Every dependency that can be resolved is, to a known component that provides it. */
  lemma ResolveProvides(k: Known, depends: seq<CId.Id>)
    requires Listed(k) && Resolve(k, depends).Done?
    ensures forall c :: c in Resolve(k, depends).value ==> c in k.info
    ensures forall d :: d in depends && Resolvable(k, d) ==>
      exists c :: c in Resolve(k, depends).value && c in k.info && Provides(k.info[c], d)
  {
    ResolveKnown(k, depends);
    forall d | d in depends && Resolvable(k, d)
      ensures exists c :: c in Resolve(k, depends).value && c in k.info && Provides(k.info[c], d)
    {
      ResolveMeets(k, depends, d);
    }
  }

  ghost predicate ResolvedOne(k: Known, g: Graph, c: Ref)
    requires Listed(k) && c in k.info && c in g
  {
    Resolve(k, k.info[c].depends) == Done(g[c])
  }

  /** The first i components are resolved and the others still have no dependencies. */
  ghost predicate ResolvedUpTo(k: Known, g: Graph, i: nat)
    requires Listed(k) && i <= |k.order|
  {
    && g.Keys == k.info.Keys
    && (forall j :: 0 <= j < i ==> ResolvedOne(k, g, k.order[j]))
    && (forall j :: i <= j < |k.order| ==> g[k.order[j]] == [])
  }

  /** g holds the resolved dependency list of each component. */
  ghost predicate IsResolved(k: Known, g: Graph)
    requires Listed(k)
  {
    && g.Keys == k.info.Keys
    && forall c :: c in k.info ==> ResolvedOne(k, g, c)
  }

  lemma ResolvedClosed(k: Known, g: Graph)
    requires Listed(k) && IsResolved(k, g)
    ensures Closed(g) && In(g, k.order)
  {
    forall c, d | c in g && d in g[c] ensures d in g {
      ResolveProvides(k, k.info[c].depends);
    }
  }

  lemma ResolveNext(k: Known, g: Graph, i: nat, v: seq<Ref>)
    requires Listed(k) && NoDuplicates(k.order) && i < |k.order| && ResolvedUpTo(k, g, i)
    requires Resolve(k, k.info[k.order[i]].depends) == Done(v)
    ensures ResolvedUpTo(k, g[k.order[i] := v], i + 1)
  {
    var g1 := g[k.order[i] := v];
    forall j | 0 <= j < i + 1 ensures ResolvedOne(k, g1, k.order[j]) {
      assert j < i ==> ResolvedOne(k, g, k.order[j]);
    }
  }

  lemma AllResolved(k: Known, g: Graph)
    requires Listed(k) && ResolvedUpTo(k, g, |k.order|)
    ensures IsResolved(k, g)
  {
    forall c | c in k.info ensures ResolvedOne(k, g, c) {
      var j :| 0 <= j < |k.order| && k.order[j] == c;
      assert ResolvedOne(k, g, k.order[j]);
    }
  }

  // ---- The load order ----

  /** The load order holds each known component exactly once. */
  lemma LoadOrderComplete(k: Known, g: Graph)
    requires Listed(k) && IsResolved(k, g) && Closed(g) && In(g, k.order)
    ensures NoDuplicates(Sort(g, k.order)) && forall c :: c in Sort(g, k.order) <==> c in k.info
  {
    SortExact(g, k.order);
    forall c ensures c in Sort(g, k.order) <==> c in k.info {
      if c in k.info {
        ReachRefl(g, c);
      }
      if c in Sort(g, k.order) {
        var e :| e in k.order && Reaches(g, e, c);
        ReachInGraph(g, e, c);
      }
    }
  }

  /** A non-vendor dependency of the component at position i of the load order is provided by an
      earlier component, or by one that depends back on it. */
  lemma LoadOrder(k: Known, g: Graph, i: nat, d: CId.Id)
    requires Listed(k) && IsResolved(k, g) && Closed(g) && In(g, k.order)
    requires i < |Sort(g, k.order)| && Sort(g, k.order)[i] in k.info
    requires d in k.info[Sort(g, k.order)[i]].depends && !IsVendor(d)
    ensures var out := Sort(g, k.order);
      exists p :: p in k.info && Provides(k.info[p], d) && (p in out[..i] || Reaches(g, p, out[i]))
  {
    var c := Sort(g, k.order)[i];
    var p := DependencyProvided(k, g, c, d);
    if !Reaches(g, p, c) {
      SortOrders(g, k.order, i, p);
    }
  }

  lemma DependencyProvided(k: Known, g: Graph, c: Ref, d: CId.Id) returns (p: Ref)
    requires Listed(k) && IsResolved(k, g) && c in k.info
    requires d in k.info[c].depends && !IsVendor(d)
    ensures p in g[c] && p in k.info && Provides(k.info[p], d)
  {
    ResolveFails(k, k.info[c].depends);
    assert Resolvable(k, d);
    ResolveProvides(k, k.info[c].depends);
    p :| p in g[c] && p in k.info && Provides(k.info[p], d);
  }

  /** Without cycles every non-vendor dependency is provided by a component loaded strictly earlier. */
  lemma LoadOrderAcyclic(k: Known, g: Graph, i: nat, d: CId.Id)
    requires Listed(k) && IsResolved(k, g) && Closed(g) && In(g, k.order)
    requires forall c :: c in g ==> AcyclicFrom(g, c)
    requires i < |Sort(g, k.order)| && Sort(g, k.order)[i] in k.info
    requires d in k.info[Sort(g, k.order)[i]].depends && !IsVendor(d)
    ensures exists p :: p in Sort(g, k.order)[..i] && p in k.info && Provides(k.info[p], d)
  {
    var c := Sort(g, k.order)[i];
    var p := DependencyProvided(k, g, c, d);
    AcyclicDependency(g, c, p);
    SortOrders(g, k.order, i, p);
  }

  // ---- The loader ----

  function FindIn(k: Known, order: seq<Ref>, name: string): (r: seq<Ref>)
    requires forall c :: c in order ==> c in k.info
    ensures r == [] ==> forall c :: c in order ==> k.info[c].name != name
    ensures r != [] ==> |r| == 1 && r[0] in k.info && k.info[r[0]].name == name
  {
    if order == [] then []
    else if k.info[order[0]].name == name then [order[0]]
    else FindIn(k, order[1..], name)
  }

  ghost function Prepend(a: seq<Ref>, r: Outcome<seq<Ref>>): Outcome<seq<Ref>> {
    match r
    case FatalError => FatalError
    case Done(b) => Done(a + b)
  }

  lemma PrependEmpty(r: Outcome<seq<Ref>>)
    ensures Prepend([], r) == r
  {
    if r.Done? {
      assert [] + r.value == r.value;
    }
  }

  lemma PrependTwice(a: seq<Ref>, b: seq<Ref>, r: Outcome<seq<Ref>>)
    ensures Prepend(a, Prepend(b, r)) == Prepend(a + b, r)
  {
    if r.Done? {
      assert a + (b + r.value) == a + b + r.value;
    }
  }

  class Loader {
    const known: Known
    var dependencyData: Graph   // m_dependencyComponents of every component
    var isLoaded: set<Ref>      // the components whose m_isLoaded is set
    var loadedComponents: seq<Ref>

    constructor (known: Known)
      ensures this.known == known && dependencyData == map c | c in known.info :: []
      ensures isLoaded == {} && loadedComponents == []
    {
      this.known := known;
      dependencyData := map c | c in known.info :: [];
      isLoaded := {};
      loadedComponents := [];
    }

    method ProvidesDependency(component: Ref, dependency: CId.Id) returns (matched: bool)
      requires component in known.info
      ensures matched <==> Provides(known.info[component], dependency)
    {
      var provided := known.info[component].provided;
      for j := 0 to |provided|
        invariant forall m :: 0 <= m < j ==> !CId.Matches(dependency, provided[m])
      {
        matched := CId.IsMatchedBy(dependency, provided[j]);
        if matched {
          return;
        }
      }
      matched := false;
    }

    method FindProvider(dependency: CId.Id) returns (found: seq<Ref>)
      requires Listed(known)
      ensures found == FirstProvider(known, known.order, dependency)
    {
      for i := 0 to |known.order|
        invariant FirstProvider(known, known.order, dependency) == FirstProvider(known, known.order[i..], dependency)
      {
        assert known.order[i..][0] == known.order[i] && known.order[i..][1..] == known.order[i + 1..];
        var matched := ProvidesDependency(known.order[i], dependency);
        if matched {
          return [known.order[i]];
        }
      }
      return [];
    }

    method AddDependency(component: Ref, dependency: Ref)
      requires component in dependencyData
      modifies this`dependencyData
      ensures dependencyData == old(dependencyData)[component := old(dependencyData[component]) + [dependency]]
    {
      dependencyData := dependencyData[component := dependencyData[component] + [dependency]];
    }

    /** Fills the dependency list of one component; false is the fatal error for a missing provider. */
    method LoadDependencies(component: Ref) returns (ok: bool)
      requires Listed(known) && component in known.info
      requires component in dependencyData && dependencyData[component] == []
      modifies this`dependencyData
      ensures var r := Resolve(known, known.info[component].depends);
        && (ok <==> r.Done?)
        && (ok ==> dependencyData == old(dependencyData)[component := r.value])
    {
      var depends := known.info[component].depends;
      ghost var whole := Resolve(known, depends);
      ghost var before := dependencyData;
      ghost var added: seq<Ref> := [];
      PrependEmpty(whole);
      assert depends[0..] == depends;
      for i := 0 to |depends|
        invariant dependencyData == before[component := added]
        invariant whole == Prepend(added, Resolve(known, depends[i..]))
      {
        ghost var rest := Resolve(known, depends[i + 1..]);
        assert depends[i..][0] == depends[i] && depends[i..][1..] == depends[i + 1..];
        var found := FindProvider(depends[i]);
        PrependTwice(added, found, rest);
        if found != [] {
          AddDependency(component, found[0]);
          assert found == [found[0]];
          added := added + found;
        } else if !IsVendor(depends[i]) {
          return false;
        } else {
          assert added + found == added;
        }
      }
      assert added + [] == added;
      return true;
    }

    function FindByName(name: string): (r: seq<Ref>)
      reads this
      requires Listed(known)
      ensures r == [] ==> forall c :: c in known.info ==> known.info[c].name != name
      ensures r != [] ==> |r| == 1 && r[0] in known.info && known.info[r[0]].name == name
    {
      FindIn(known, known.order, name)
    }

    ghost predicate IsKnown(name: string)
      reads this
    {
      exists c :: c in known.info && known.info[c].name == name
    }

    /** Finds the component by name, with the one built-in alias, and marks it loaded. */
    method LoadComponent(componentName: string) returns (component: Outcome<Ref>)
      requires Listed(known) && UniqueNames(known)
      modifies this`isLoaded
      ensures forall c :: c in known.info && known.info[c].name == componentName ==> component == Done(c)
      ensures component.Done? ==> component.value in known.info && isLoaded == old(isLoaded) + {component.value}
      ensures component.Done? ==>
        var name := known.info[component.value].name;
        name == componentName || (componentName == "adhesive" && name == "sticky")
      ensures component.FatalError? ==> isLoaded == old(isLoaded)
      ensures component.FatalError? <==>
        !IsKnown(componentName) && !(componentName == "adhesive" && IsKnown("sticky"))
    {
      var found := FindByName(componentName);
      if found == [] {
        if componentName == "adhesive" {
          found := FindByName("sticky");
        }
        if found == [] {
          return FatalError;
        }
      }
      if found[0] in isLoaded {
        return Done(found[0]);
      }
      isLoaded := isLoaded + {found[0]};
      return Done(found[0]);
    }

    method ResolveAll() returns (ok: bool)
      requires Listed(known) && NoDuplicates(known.order)
      requires dependencyData == map c | c in known.info :: []
      modifies this`dependencyData
      ensures ok ==> IsResolved(known, dependencyData)
      ensures !ok ==> exists c :: c in known.info && Resolve(known, known.info[c].depends).FatalError?
    {
      for i := 0 to |known.order|
        invariant ResolvedUpTo(known, dependencyData, i)
      {
        ghost var before := dependencyData;
        ok := LoadDependencies(known.order[i]);
        if !ok {
          return;
        }
        ResolveNext(known, before, i, Resolve(known, known.info[known.order[i]].depends).value);
      }
      AllResolved(known, dependencyData);
      ok := true;
    }

    /** Loads the sorted components in order, by name. */
    method LoadSorted(sortedList: seq<Ref>)
      requires Listed(known) && UniqueNames(known) && forall c :: c in sortedList ==> c in known.info
      modifies this`isLoaded, this`loadedComponents
      ensures loadedComponents == sortedList
      ensures forall c :: c in sortedList ==> c in isLoaded
    {
      loadedComponents := [];
      for i := 0 to |sortedList|
        invariant loadedComponents == sortedList[..i]
        invariant forall j :: 0 <= j < i ==> sortedList[j] in isLoaded
      {
        assert sortedList[i] in known.info;
        var comp := LoadComponent(known.info[sortedList[i]].name);
        assert comp == Done(sortedList[i]);
        loadedComponents := loadedComponents + [comp.value];
      }
    }

    /** Resolve every component, sort, and load in sorted order. */
    method InitializeWithString() returns (ok: bool)
      requires Listed(known) && UniqueNames(known) && NoDuplicates(known.order)
      requires dependencyData == map c | c in known.info :: []
      modifies this
      ensures ok ==> IsResolved(known, dependencyData) && Closed(dependencyData) && In(dependencyData, known.order)
      ensures ok ==> loadedComponents == Sort(dependencyData, known.order)
      ensures ok ==> forall c :: c in known.info ==> c in isLoaded
      ensures !ok ==> exists c :: c in known.info && Resolve(known, known.info[c].depends).FatalError?
    {
      ok := ResolveAll();
      if ok {
        ResolvedClosed(known, dependencyData);
        var sorter := new DependencySorter();
        var sortedList := sorter.SortDependencyList(dependencyData, known.order);
        LoadOrderComplete(known, dependencyData);
        LoadSorted(sortedList);
      }
    }
  }
}
