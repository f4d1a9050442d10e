/** The two cycle gates of scripts/layering/model.ts, from import edges to reported cycles. */
module Layering {
  import opened Digraph
  import opened Sequences
  import opened Tarjan
  import opened CyclePaths
  import opened Wrappers

  /** A resolved import; the spec text and zone names play no part in cycle detection. */
  datatype ImportEdge = ImportEdge(file: File, target: File, dynamic: bool, typeOnly: bool, line: nat)

  function Pair(e: ImportEdge): (File, File) {
    (e.file, e.target)
  }

  predicate IsValue(e: ImportEdge) {
    !e.dynamic && !e.typeOnly
  }

  /** The graph R4 must keep acyclic. */
  function ValueEdges(edges: seq<ImportEdge>): Edges {
    set e | e in edges && IsValue(e) :: Pair(e)
  }

  /** Value and type-only imports together. */
  function StaticEdges(edges: seq<ImportEdge>): Edges {
    set e | e in edges && !e.dynamic :: Pair(e)
  }

  /** A JavaScript map from files to target lists, with the insertion order its iteration follows. */
  datatype Adjacency = Adjacency(targets: map<File, seq<File>>, order: seq<File>)
  {
    predicate Keyed() {
      Elements(order) == targets.Keys
    }

    /** `map.set(key, value)`: a new key goes to the end of the iteration order. */
    function Set(key: File, value: seq<File>): (r: Adjacency)
      requires Keyed()
      ensures r.Keyed() && r.targets.Keys == targets.Keys + {key}
    {
      Adjacency(targets[key := value], if key in targets then order else order + [key])
    }
  }

  /** The body of the loop that fills the sets of `findValueImportCycles`. */
  function AddToSet(g: Adjacency, from: File, to: File): (r: Adjacency)
    requires g.Keyed()
    ensures r.Keyed() && r.targets.Keys == g.targets.Keys + {from, to}
  {
    var known := Succ(g.targets, from);
    var h := g.Set(from, if to in known then known else known + [to]);
    if to in h.targets then h else h.Set(to, [])
  }

  /** The body of the loop that fills the lists of `largestTypeCycleMembers`. */
  function AddToList(g: Adjacency, from: File, to: File): (r: Adjacency)
    requires g.Keyed()
    ensures r.Keyed() && r.targets.Keys == g.targets.Keys + {from}
  {
    g.Set(from, Succ(g.targets, from) + [to])
  }

  /** What one call of either loop body does to the target lists. */
  lemma TargetsAfterAdding(g: Adjacency, from: File, to: File, a: File)
    requires g.Keyed()
    ensures var known := Succ(g.targets, from);
      && Succ(AddToSet(g, from, to).targets, a) ==
           (if a == from then (if to in known then known else known + [to]) else Succ(g.targets, a))
      && Succ(AddToList(g, from, to).targets, a) == (if a == from then known + [to] else Succ(g.targets, a))
  {
  }

  /** Either loop body adds exactly the one edge. */
  lemma AddsOneEdge(g: Adjacency, es: Edges, from: File, to: File)
    requires g.Keyed() && Represents(g.targets, es)
    ensures Represents(AddToSet(g, from, to).targets, es + {(from, to)})
    ensures Represents(AddToList(g, from, to).targets, es + {(from, to)})
  {
    hide Succ, AddToSet, AddToList;
    forall a, b
      ensures (a, b) in es + {(from, to)} <==> b in Succ(AddToSet(g, from, to).targets, a)
      ensures (a, b) in es + {(from, to)} <==> b in Succ(AddToList(g, from, to).targets, a)
    {
      TargetsAfterAdding(g, from, to, a);
    }
  }

  ghost predicate AdjacencyOf(g: Adjacency, es: Edges, keys: set<File>) {
    g.Keyed() && g.targets.Keys == keys && Represents(g.targets, es)
  }

  ghost function Sources(es: Edges): set<File> {
    set e | e in es :: e.0
  }

  lemma KeysGrow(es: Edges, a: File, b: File)
    ensures Endpoints(es + {(a, b)}) == Endpoints(es) + {a, b}
    ensures Sources(es + {(a, b)}) == Sources(es) + {a}
  {
  }

  lemma OneMoreEdge(edges: seq<ImportEdge>, i: nat)
    requires i < |edges|
    ensures ValueEdges(edges[..i + 1]) ==
            if IsValue(edges[i]) then ValueEdges(edges[..i]) + {Pair(edges[i])} else ValueEdges(edges[..i])
    ensures StaticEdges(edges[..i + 1]) ==
            if edges[i].dynamic then StaticEdges(edges[..i]) else StaticEdges(edges[..i]) + {Pair(edges[i])}
  {
  }

  /** The adjacency map as a function of the edge list: targets in order of first mention. */
  function ValueGraph(edges: seq<ImportEdge>): (g: Adjacency)
    ensures g.Keyed()
  {
    if edges == [] then Adjacency(map[], [])
    else
      var g, e := ValueGraph(edges[..|edges| - 1]), edges[|edges| - 1];
      if IsValue(e) then AddToSet(g, e.file, e.target) else g
  }

  lemma OneMoreTarget(edges: seq<ImportEdge>, i: nat)
    requires i < |edges|
    ensures var g, e := ValueGraph(edges[..i]), edges[i];
      ValueGraph(edges[..i + 1]) == if IsValue(e) then AddToSet(g, e.file, e.target) else g
  {
    assert edges[..i + 1][..i] == edges[..i];
  }

  /** The map shows exactly the value imports, with a key for either end of each. */
  lemma {:induction false} ValueGraphShows(edges: seq<ImportEdge>)
    ensures AdjacencyOf(ValueGraph(edges), ValueEdges(edges), Endpoints(ValueEdges(edges)))
  {
    hide Endpoints, ValueEdges, AddToSet, AdjacencyOf;
    if edges == [] {
      NoEdges(edges);
      assert edges[..0] == edges;
    } else {
      var n := |edges| - 1;
      ValueGraphShows(edges[..n]);
      OneMoreEdge(edges, n);
      assert edges[..n + 1] == edges;
      SetAddsOneEdge(ValueGraph(edges[..n]), ValueEdges(edges[..n]), edges[n].file, edges[n].target);
    }
  }

  method BuildValueGraph(edges: seq<ImportEdge>) returns (g: Adjacency)
    ensures AdjacencyOf(g, ValueEdges(edges), Endpoints(ValueEdges(edges)))
    ensures g == ValueGraph(edges)
  {
    hide Endpoints, ValueEdges, AddToSet, AdjacencyOf;
    g := Adjacency(map[], []);
    for i := 0 to |edges|
      invariant g == ValueGraph(edges[..i])
    {
      var e := edges[i];
      OneMoreTarget(edges, i);
      if e.dynamic || e.typeOnly {
        continue;
      }
      g := AddToSet(g, e.file, e.target);
    }
    assert edges[..|edges|] == edges;
    ValueGraphShows(edges);
  }

  lemma NoEdges(edges: seq<ImportEdge>)
    ensures AdjacencyOf(Adjacency(map[], []), ValueEdges(edges[..0]), Endpoints(ValueEdges(edges[..0])))
    ensures AdjacencyOf(Adjacency(map[], []), StaticEdges(edges[..0]), Sources(StaticEdges(edges[..0])))
  {
  }

  lemma SetAddsOneEdge(g: Adjacency, es: Edges, from: File, to: File)
    requires AdjacencyOf(g, es, Endpoints(es))
    ensures g.Keyed() && AdjacencyOf(AddToSet(g, from, to), es + {(from, to)}, Endpoints(es + {(from, to)}))
  {
    KeysGrow(es, from, to);
    AddsOneEdge(g, es, from, to);
  }

  method BuildStaticSuccessors(edges: seq<ImportEdge>) returns (g: Adjacency)
    ensures AdjacencyOf(g, StaticEdges(edges), Sources(StaticEdges(edges)))
  {
    hide Endpoints, Sources, ValueEdges, StaticEdges;
    g := Adjacency(map[], []);
    NoEdges(edges);
    for i := 0 to |edges|
      invariant AdjacencyOf(g, StaticEdges(edges[..i]), Sources(StaticEdges(edges[..i])))
    {
      var e := edges[i];
      OneMoreEdge(edges, i);
      if e.dynamic {
        continue;
      }
      KeysGrow(StaticEdges(edges[..i]), e.file, e.target);
      AddsOneEdge(g, StaticEdges(edges[..i]), e.file, e.target);
      g := AddToList(g, e.file, e.target);
    }
    assert edges[..|edges|] == edges;
  }

  // ---- what the popped components amount to ----

  ghost predicate PairwiseDisjoint(components: seq<seq<File>>) {
    forall k, m :: 0 <= k < m < |components| ==> Elements(components[k]) !! Elements(components[m])
  }

  /** Exactly the strongly connected components that contain a cycle, each listed once. */
  ghost predicate AreTheCyclicComponents(es: Edges, components: seq<seq<File>>) {
    && (forall c :: c in components ==> Distinct(c) && IsComponent(es, Elements(c)))
    && (forall c, v :: c in components && v in c ==> OnCycle(es, v))
    && (forall v :: OnCycle(es, v) ==> exists c :: c in components && v in c)
    && PairwiseDisjoint(components)
  }

  lemma {:induction false} CyclicOnlyFilters(graph: map<File, seq<File>>, popped: seq<seq<File>>)
    requires PairwiseDisjoint(popped)
    ensures forall c :: c in CyclicOnly(graph, popped) <==> c in popped && IsCyclic(graph, c)
    ensures PairwiseDisjoint(CyclicOnly(graph, popped))
  {
    if popped != [] {
      var n := |popped| - 1;
      assert popped == popped[..n] + [popped[n]];
      CyclicOnlyFilters(graph, popped[..n]);
      var kept := CyclicOnly(graph, popped[..n]);
      forall k | 0 <= k < |kept|
        ensures Elements(kept[k]) !! Elements(popped[n])
      {
        assert kept[k] in popped[..n];
      }
    }
  }

  lemma {:induction false} FirstLargestIsLargest(popped: seq<seq<File>>)
    ensures forall c :: c in popped ==> |c| <= |FirstLargest(popped)|
    ensures FirstLargest(popped) == [] || FirstLargest(popped) in popped
  {
    if popped != [] {
      var n := |popped| - 1;
      assert popped == popped[..n] + [popped[n]];
      FirstLargestIsLargest(popped[..n]);
    }
  }

  /** A popped component passes the `length > 1 || self edge` test exactly when its files lie on cycles. */
  lemma CyclicTest(graph: map<File, seq<File>>, es: Edges, c: seq<File>, v: File)
    requires Represents(graph, es) && Distinct(c) && IsComponent(es, Elements(c)) && v in c
    ensures IsCyclic(graph, c) <==> OnCycle(es, v)
  {
    CyclicComponent(es, Elements(c), v);
    DistinctCardinality(c);
    if |c| == 1 {
      assert Elements(c) == {v};
    }
  }

  lemma PoppedCyclesAreTheCycles(graph: map<File, seq<File>>, es: Edges, popped: seq<seq<File>>, done: set<File>)
    requires Represents(graph, es) && Settled(es, popped, done) && Endpoints(es) <= done
    ensures AreTheCyclicComponents(es, CyclicOnly(graph, popped))
  {
    CyclicOnlyFilters(graph, popped);
    var kept := CyclicOnly(graph, popped);
    forall c, v | c in kept && v in c
      ensures OnCycle(es, v)
    {
      CyclicTest(graph, es, c, v);
    }
    forall v | OnCycle(es, v)
      ensures exists c :: c in kept && v in c
    {
      var m :| (v, m) in es && Reach(es, m, v);
      assert v in Endpoints(es);
      var k :| 0 <= k < |popped| && v in popped[k];
      CyclicTest(graph, es, popped[k], v);
      assert popped[k] in kept;
    }
  }

  lemma SourcesSettleEndpoints(es: Edges, done: set<File>)
    requires Closed(es, done) && Sources(es) <= done
    ensures Endpoints(es) <= done
  {
  }

  lemma PoppedSettle(es: Edges, popped: seq<seq<File>>, done: set<File>)
    requires Settled(es, popped, done)
    ensures popped != [] ==> done != {}
  {
    if popped != [] {
      assert IsComponent(es, Elements(popped[0]));
      var v :| v in Elements(popped[0]);
      assert v in done;
    }
  }

  lemma PoppedLargestIsLargest(es: Edges, popped: seq<seq<File>>, done: set<File>)
    requires Settled(es, popped, done) && Endpoints(es) == done
    ensures es == {} ==> FirstLargest(popped) == []
    ensures es != {} ==> FirstLargest(popped) in popped
    ensures es != {} ==> forall c :: IsComponent(es, c) ==> |c| <= |FirstLargest(popped)|
  {
    FirstLargestIsLargest(popped);
    if es == {} {
      assert Endpoints(es) == {};
      PoppedSettle(es, popped, done);
      return;
    }
    var best := FirstLargest(popped);
    var e :| e in es;
    assert e.0 in Endpoints(es);
    var k :| 0 <= k < |popped| && e.0 in popped[k];
    assert popped[k] in popped;
    forall c | IsComponent(es, c)
      ensures |c| <= |best|
    {
      var x :| x in c;
      if x in done {
        var m :| 0 <= m < |popped| && x in popped[m];
        ComponentsMeet(es, c, Elements(popped[m]), x);
        DistinctCardinality(popped[m]);
        assert popped[m] in popped;
      } else {
        LonelyComponent(es, c, x);
      }
    }
  }

  /** A file without edges is a component of its own. */
  lemma LonelyComponent(es: Edges, c: set<File>, x: File)
    requires IsComponent(es, c) && x in c && x !in Endpoints(es)
    ensures c == {x}
  {
    forall y | y in c
      ensures y == x
    {
      assert Mutual(es, x, y);
      EndpointsCover(es);
      ReachSplit(es, x, y);
    }
  }

  lemma LargestOfAcyclic(es: Edges, c: set<File>)
    requires Acyclic(es) && IsComponent(es, c)
    ensures |c| == 1
  {
    var x :| x in c;
    CyclicComponent(es, c, x);
  }

  // ---- the two gates ----

  /** `findValueImportCycles` up to and including its root loop. */
  method FindCyclicComponents(edges: seq<ImportEdge>) returns (components: seq<seq<File>>, graph: map<File, seq<File>>)
    ensures Represents(graph, ValueEdges(edges))
    ensures AreTheCyclicComponents(ValueEdges(edges), components)
    ensures graph == ValueGraph(edges).targets
  {
    var g := BuildValueGraph(edges);
    ghost var es := ValueEdges(edges);
    var walk := new ComponentWalk(g.targets, es, Endpoints(es));
    walk.VisitAll(g.order);
    PoppedCyclesAreTheCycles(g.targets, es, walk.popped, walk.done);
    components, graph := walk.cyclic, g.targets;
  }

  /** One cycle per cyclic component, in components' order. */
  ghost predicate PathsOf(es: Edges, components: seq<seq<File>>, paths: seq<seq<File>>) {
    && |paths| == |components|
    && forall k :: 0 <= k < |paths| ==> IsCyclePath(Inside(es, Elements(components[k])), paths[k])
  }

  /** Every report is a cycle of value imports, no two share a component, and no cycle goes unreported. */
  ghost predicate AreCycleReports(es: Edges, paths: seq<seq<File>>) {
    && (forall p :: p in paths ==> IsCyclePath(es, p))
    && (forall i, j :: 0 <= i < j < |paths| && |paths[i]| > 0 && |paths[j]| > 0 ==>
          !Mutual(es, paths[i][0], paths[j][0]))
    && (forall v :: OnCycle(es, v) ==> exists p :: p in paths && |p| > 0 && Mutual(es, v, p[0]))
  }

  lemma InsideIsPart(es: Edges, c: seq<File>, p: seq<File>)
    requires IsCyclePath(Inside(es, Elements(c)), p)
    ensures IsCyclePath(es, p) && forall v :: v in p ==> v in c
  {
    forall k | 0 <= k < |p|
      ensures p[k] in c
    {
      assert k < |p| - 1 ==> (p[k], p[k + 1]) in Inside(es, Elements(c));
      assert (p[0], p[1]) in Inside(es, Elements(c));
    }
  }

  lemma PathStartsInComponent(es: Edges, components: seq<seq<File>>, paths: seq<seq<File>>, k: nat)
    requires AreTheCyclicComponents(es, components) && PathsOf(es, components, paths) && k < |paths|
    ensures IsCyclePath(es, paths[k]) && |paths[k]| > 0 && paths[k][0] in Elements(components[k])
    ensures IsComponent(es, Elements(components[k]))
  {
    InsideIsPart(es, components[k], paths[k]);
    assert components[k] in components;
  }

  lemma PathsInDifferentComponents(es: Edges, components: seq<seq<File>>, paths: seq<seq<File>>, i: nat, j: nat)
    requires AreTheCyclicComponents(es, components) && PathsOf(es, components, paths) && i < j < |paths|
    ensures |paths[i]| > 0 && |paths[j]| > 0 && !Mutual(es, paths[i][0], paths[j][0])
  {
    hide IsCyclePath;
    PathStartsInComponent(es, components, paths, i);
    PathStartsInComponent(es, components, paths, j);
    assert Elements(components[i]) !! Elements(components[j]);
  }

  lemma PathsAreReports(es: Edges, components: seq<seq<File>>, paths: seq<seq<File>>)
    requires AreTheCyclicComponents(es, components) && PathsOf(es, components, paths)
    ensures AreCycleReports(es, paths)
  {
    hide IsCyclePath, IsComponent;
    forall p | p in paths
      ensures IsCyclePath(es, p)
    {
      var k :| 0 <= k < |paths| && paths[k] == p;
      PathStartsInComponent(es, components, paths, k);
    }
    forall i, j | 0 <= i < j < |paths|
      ensures |paths[i]| > 0 && |paths[j]| > 0 && !Mutual(es, paths[i][0], paths[j][0])
    {
      PathsInDifferentComponents(es, components, paths, i, j);
    }
    forall v | OnCycle(es, v)
      ensures exists p :: p in paths && |p| > 0 && Mutual(es, v, p[0])
    {
      CycleIsReported(es, components, paths, v);
    }
  }

  lemma CycleIsReported(es: Edges, components: seq<seq<File>>, paths: seq<seq<File>>, v: File)
    requires AreTheCyclicComponents(es, components) && PathsOf(es, components, paths) && OnCycle(es, v)
    ensures exists p :: p in paths && |p| > 0 && Mutual(es, v, p[0])
  {
    hide IsCyclePath;
    var c :| c in components && v in c;
    var k :| 0 <= k < |components| && components[k] == c;
    PathStartsInComponent(es, components, paths, k);
    assert paths[k] in paths && v in Elements(components[k]);
  }

  lemma ReportsSurviveSorting(es: Edges, paths: seq<seq<File>>, sorted: seq<seq<File>>)
    requires AreCycleReports(es, paths) && multiset(sorted) == multiset(paths)
    ensures AreCycleReports(es, sorted)
  {
    SamePermutation(paths, sorted);
    assert Distinct(paths) by {
      forall i, j | 0 <= i < j < |paths|
        ensures paths[i] != paths[j]
      {
        assert paths[i] in paths && paths[j] in paths;
        ReachSelf(es, paths[i][0]);
      }
    }
    PermutationKeepsDistinct(paths, sorted);
    forall i, j | 0 <= i < j < |sorted| && |sorted[i]| > 0 && |sorted[j]| > 0
      ensures !Mutual(es, sorted[i][0], sorted[j][0])
    {
      assert sorted[i] in paths && sorted[j] in paths && sorted[i] != sorted[j];
      var m :| 0 <= m < |paths| && paths[m] == sorted[i];
      var n :| 0 <= n < |paths| && paths[n] == sorted[j];
      assert m < n || n < m;
    }
  }

  function FirstFile(p: seq<File>): File {
    if p == [] then File("") else p[0]
  }

  function ByFirstFile(le: (File, File) -> bool): (pathLe: (seq<File>, seq<File>) -> bool)
    requires TotalPreorder(le)
    ensures TotalPreorder(pathLe)
  {
    var pathLe := (p, q) => le(FirstFile(p), FirstFile(q));
    assert forall p, q :: pathLe(p, q) == le(FirstFile(p), FirstFile(q));
    pathLe
  }

  /**
   `findValueImportCycles`: one cycle per cyclic component, sorted by first file. The search for a
   path never fails here, so the throw in `findCyclePath` cannot be reached.
   */
  method FindValueImportCycles(edges: seq<ImportEdge>, name: (File, File) -> bool, locale: (File, File) -> bool)
      returns (cycles: seq<seq<File>>)
    requires TotalPreorder(name) && TotalPreorder(locale)
    ensures AreCycleReports(ValueEdges(edges), cycles)
    ensures cycles == [] <==> Acyclic(ValueEdges(edges))
    ensures Sorted(cycles, ByFirstFile(locale))
    ensures forall i, j :: 0 <= i < j < |cycles| ==> StartsBefore(cycles[i], cycles[j], locale)
    ensures FollowSearch(edges, name, cycles)
  {
    hide AreTheCyclicComponents, AreCycleReports, IsCyclePath, Acyclic, TotalPreorder, ReportFor, FollowSearch,
         ValueGraph, Represents, SearchRoots, ByFirstFile, Inside, Elements;
    var components, graph := FindCyclicComponents(edges);
    ghost var es := ValueEdges(edges);
    var paths := [];
    for k := 0 to |components|
      invariant PathsOf(es, components[..k], paths)
      invariant forall i :: 0 <= i < k ==> ReportFor(edges, name, components[i], paths[i])
    {
      var path := FindCyclePath(components[k], graph, es, name);
      ComponentHasPath(es, components, k);
      assert path.Some?;
      ComponentReport(edges, name, components, k, path.value);
      paths := paths + [path.value];
      assert components[..k + 1] == components[..k] + [components[k]];
    }
    assert components[..|components|] == components;
    PathsAreReports(es, components, paths);
    cycles := Sort(paths, ByFirstFile(locale));
    ReportsSurviveSorting(es, paths, cycles);
    ReportsDecideAcyclicity(es, cycles);
    SamePermutation(paths, cycles);
    AllFollowSearch(edges, name, components, paths, cycles);
    FirstFilesInOrder(es, cycles, locale);
  }

  /** `left[0]` does not come after `right[0]`. */
  ghost predicate StartsBefore(left: seq<File>, right: seq<File>, locale: (File, File) -> bool) {
    left != [] && right != [] && locale(left[0], right[0])
  }

  lemma FirstFilesInOrder(es: Edges, cycles: seq<seq<File>>, locale: (File, File) -> bool)
    requires TotalPreorder(locale) && AreCycleReports(es, cycles) && Sorted(cycles, ByFirstFile(locale))
    ensures forall i, j :: 0 <= i < j < |cycles| ==> StartsBefore(cycles[i], cycles[j], locale)
  {
    forall i, j | 0 <= i < j < |cycles|
      ensures StartsBefore(cycles[i], cycles[j], locale)
    {
      assert IsCyclePath(es, cycles[i]) && IsCyclePath(es, cycles[j]);
      assert ByFirstFile(locale)(cycles[i], cycles[j]);
      assert locale(FirstFile(cycles[i]), FirstFile(cycles[j]));
    }
  }

  /** `p` is the path the search settles on in the cyclic component `c`. */
  ghost predicate ReportFor(edges: seq<ImportEdge>, name: (File, File) -> bool, c: seq<File>, p: seq<File>)
    requires TotalPreorder(name)
  {
    && Distinct(c) && IsComponent(ValueEdges(edges), Elements(c))
    && (forall v :: v in c ==> OnCycle(ValueEdges(edges), v))
    && SearchRoots(ValueGraph(edges).targets, Elements(c), {}, Sort(c, name)) == Some(p)
    && IsCyclePath(Inside(ValueEdges(edges), Elements(c)), p)
  }

  /**
   Each report is the path the search settles on in some component, and under a total order of names each
   such path is reported.
   */
  ghost predicate FollowSearch(edges: seq<ImportEdge>, name: (File, File) -> bool, cycles: seq<seq<File>>)
    requires TotalPreorder(name)
  {
    && (forall p :: p in cycles ==> exists c :: ReportFor(edges, name, c, p))
    && (TotalOrder(name) ==> forall c, p :: ReportFor(edges, name, c, p) ==> p in cycles)
  }

  lemma ComponentReport(edges: seq<ImportEdge>, name: (File, File) -> bool, components: seq<seq<File>>, k: nat,
                        p: seq<File>)
    requires TotalPreorder(name) && AreTheCyclicComponents(ValueEdges(edges), components) && k < |components|
    requires SearchRoots(ValueGraph(edges).targets, Elements(components[k]), {}, Sort(components[k], name)) == Some(p)
    requires IsCyclePath(Inside(ValueEdges(edges), Elements(components[k])), p)
    ensures ReportFor(edges, name, components[k], p)
  {
    hide IsComponent, OnCycle, TotalPreorder;
    assert components[k] in components;
  }

  lemma AllFollowSearch(edges: seq<ImportEdge>, name: (File, File) -> bool, components: seq<seq<File>>,
                        paths: seq<seq<File>>, cycles: seq<seq<File>>)
    requires TotalPreorder(name) && AreTheCyclicComponents(ValueEdges(edges), components) && |paths| == |components|
    requires forall i :: 0 <= i < |paths| ==> ReportFor(edges, name, components[i], paths[i])
    requires forall p :: p in paths <==> p in cycles
    ensures FollowSearch(edges, name, cycles)
  {
    hide IsComponent, OnCycle, TotalPreorder, ReportFor, AreTheCyclicComponents;
    forall p | p in cycles
      ensures exists c :: ReportFor(edges, name, c, p)
    {
      var i :| 0 <= i < |paths| && paths[i] == p;
    }
    forall c, p | TotalOrder(name) && ReportFor(edges, name, c, p)
      ensures p in cycles
    {
      var k := ReportedComponent(edges, name, components, c, p);
      SameComponentSameReport(edges, name, c, p, components[k], paths[k]);
      assert paths[k] in paths;
    }
  }

  lemma ReportedComponent(edges: seq<ImportEdge>, name: (File, File) -> bool, components: seq<seq<File>>,
                          c: seq<File>, p: seq<File>) returns (k: nat)
    requires TotalPreorder(name) && AreTheCyclicComponents(ValueEdges(edges), components) &&
      ReportFor(edges, name, c, p)
    ensures k < |components| && Elements(components[k]) == Elements(c)
  {
    hide OnCycle, TotalPreorder, Distinct;
    var x :| x in Elements(c);
    var d :| d in components && x in d;
    k :| 0 <= k < |components| && components[k] == d;
    ComponentsMeet(ValueEdges(edges), Elements(c), Elements(d), x);
  }

  lemma SameComponentSameReport(edges: seq<ImportEdge>, name: (File, File) -> bool, c: seq<File>, p: seq<File>,
                                d: seq<File>, q: seq<File>)
    requires TotalOrder(name) && ReportFor(edges, name, c, p) && ReportFor(edges, name, d, q) &&
      Elements(c) == Elements(d)
    ensures p == q
  {
    hide IsComponent, OnCycle, SearchRoots, ValueGraph, TotalPreorder;
    SameListing(c, d, name);
  }

  /** In every cyclic component the search settles on a path. */
  lemma ComponentSettles(edges: seq<ImportEdge>, name: (File, File) -> bool, c: seq<File>) returns (p: seq<File>)
    requires TotalPreorder(name) && Distinct(c) && IsComponent(ValueEdges(edges), Elements(c))
    requires forall v :: v in c ==> OnCycle(ValueEdges(edges), v)
    ensures ReportFor(edges, name, c, p)
  {
    hide TotalPreorder, IsComponent, OnCycle, IsCyclePath, SearchRoots, Acyclic, ValueGraph, ValueEdges, Sort;
    var es, graph, roots := ValueEdges(edges), ValueGraph(edges).targets, Sort(c, name);
    ValueGraphShows(edges);
    SamePermutation(c, roots);
    SearchDecides(graph, Elements(c), Inside(es, Elements(c)), roots);
    CyclicInside(es, c);
    p := SearchRoots(graph, Elements(c), {}, roots).value;
  }

  lemma CyclicInside(es: Edges, c: seq<File>)
    requires IsComponent(es, Elements(c)) && forall v :: v in c ==> OnCycle(es, v)
    ensures !Acyclic(Inside(es, Elements(c)))
  {
    var x :| x in Elements(c);
    ComponentKeepsCycles(es, Elements(c), x);
  }

  /** Under a total order of names, how a set of files was listed does not survive sorting. */
  lemma SameListing(c: seq<File>, d: seq<File>, le: (File, File) -> bool)
    requires TotalOrder(le) && Distinct(c) && Distinct(d) && Elements(c) == Elements(d)
    ensures Sort(c, le) == Sort(d, le)
  {
    hide TotalPreorder;
    AtMostOnce(c);
    AtMostOnce(d);
    forall x
      ensures multiset(c)[x] == multiset(d)[x]
    {
      assert x in c <==> x in Elements(c);
      assert x in d <==> x in Elements(d);
    }
    assert multiset(c) == multiset(d);
    SortedIsUnique(Sort(c, le), Sort(d, le), le);
  }

  lemma ComponentHasPath(es: Edges, components: seq<seq<File>>, k: nat)
    requires AreTheCyclicComponents(es, components) && k < |components|
    ensures !Acyclic(Inside(es, Elements(components[k])))
  {
    assert components[k] in components;
    CyclicInside(es, components[k]);
  }

  lemma ReportsDecideAcyclicity(es: Edges, cycles: seq<seq<File>>)
    requires AreCycleReports(es, cycles)
    ensures cycles == [] <==> Acyclic(es)
  {
    if cycles != [] {
      assert IsCyclePath(es, cycles[0]);
      CyclePathIsCyclic(es, cycles[0]);
    }
  }

  /** `largestTypeCycleMembers`: some largest component of the static graph, sorted; nothing without edges. */
  method LargestTypeCycleMembers(edges: seq<ImportEdge>, name: (File, File) -> bool) returns (members: seq<File>)
    requires TotalPreorder(name)
    ensures if StaticEdges(edges) == {} then members == [] else IsLargestComponent(StaticEdges(edges), members)
    ensures StaticEdges(edges) != {} && Acyclic(StaticEdges(edges)) ==> |members| == 1
    ensures Sorted(members, name)
  {
    hide IsLargestComponent, Settled;
    var g := BuildStaticSuccessors(edges);
    ghost var es := StaticEdges(edges);
    var walk := new ComponentWalk(g.targets, es, Endpoints(es));
    walk.VisitAll(g.order);
    members := Sort(walk.biggest, name);
    LargestReport(es, walk.popped, walk.done, members);
  }

  ghost predicate IsLargestComponent(es: Edges, members: seq<File>) {
    && Distinct(members) && IsComponent(es, Elements(members))
    && forall c :: IsComponent(es, c) ==> |c| <= |members|
  }

  lemma LargestReport(es: Edges, popped: seq<seq<File>>, done: set<File>, members: seq<File>)
    requires Settled(es, popped, done) && Closed(es, done) && Sources(es) <= done <= Endpoints(es)
    requires multiset(members) == multiset(FirstLargest(popped))
    ensures if es == {} then members == [] else IsLargestComponent(es, members)
    ensures es != {} && Acyclic(es) ==> |members| == 1
  {
    SourcesSettleEndpoints(es, done);
    PoppedLargestIsLargest(es, popped, done);
    SamePermutation(FirstLargest(popped), members);
    if es != {} {
      PermutationKeepsDistinct(FirstLargest(popped), members);
      assert Elements(members) == Elements(FirstLargest(popped));
      DistinctCardinality(members);
      if Acyclic(es) {
        LargestOfAcyclic(es, Elements(members));
      }
    }
  }
}
