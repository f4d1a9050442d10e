/** `collectCycles` in scripts/depgraph/model.ts: one detector run over three nested edge sets. */
module CycleReport {
  import opened Digraph
  import opened Sequences
  import opened CyclePaths
  import opened Layering
  import opened DepGraph
  import opened Wrappers

  datatype GraphCycle = GraphCycle(path: seq<File>, kind: EdgeKind)

  function AllEdges(edges: seq<ImportEdge>): Edges {
    set e | e in edges :: Pair(e)
  }

  function AsValue(edges: seq<ImportEdge>): (r: seq<ImportEdge>)
    ensures |r| == |edges|
    ensures forall i :: 0 <= i < |r| ==> r[i] == edges[i].(dynamic := false, typeOnly := false)
  {
    seq(|edges|, i requires 0 <= i < |edges| => edges[i].(dynamic := false, typeOnly := false))
  }

  function WithoutDynamic(edges: seq<ImportEdge>): (r: seq<ImportEdge>)
    ensures forall e :: e in r <==> e in edges && !e.dynamic
  {
    if edges == [] then []
    else
      var n := |edges| - 1;
      assert edges == edges[..n] + [edges[n]];
      WithoutDynamic(edges[..n]) + (if edges[n].dynamic then [] else [edges[n]])
  }

  lemma AsValueKeepsPairs(edges: seq<ImportEdge>)
    ensures ValueEdges(AsValue(edges)) == AllEdges(edges)
    ensures AllEdges(WithoutDynamic(edges)) == StaticEdges(edges)
  {
    forall e | e in edges
      ensures Pair(e) in ValueEdges(AsValue(edges))
    {
      var i :| 0 <= i < |edges| && edges[i] == e;
      assert AsValue(edges)[i] in AsValue(edges) && Pair(AsValue(edges)[i]) == Pair(e);
    }
    forall e | e in AsValue(edges)
      ensures Pair(e) in AllEdges(edges)
    {
      var i :| 0 <= i < |edges| && AsValue(edges)[i] == e;
      assert edges[i] in edges;
    }
  }

  /** Every file that lies on a cycle of `es` shares a component with some reported cycle. */
  ghost predicate Covers(es: Edges, cycles: seq<GraphCycle>) {
    forall v :: OnCycle(es, v) ==> exists c :: c in cycles && |c.path| > 0 && Mutual(es, v, c.path[0])
  }

  /** No two reports name the same set of files. */
  ghost predicate DistinctKeys(cycles: seq<GraphCycle>) {
    forall i, j :: 0 <= i < j < |cycles| ==> Elements(cycles[i].path) != Elements(cycles[j].path)
  }

  /** The graph whose cycles a report of a kind may show. */
  function KindEdges(edges: seq<ImportEdge>, k: EdgeKind): Edges {
    match k
    case Value => ValueEdges(edges)
    case TypeOnly => StaticEdges(edges)
    case Dynamic => AllEdges(edges)
  }

  ghost predicate KindsAreCycles(edges: seq<ImportEdge>, cycles: seq<GraphCycle>) {
    forall c :: c in cycles ==> IsCyclePath(KindEdges(edges, c.kind), c.path)
  }

  lemma CycleIsMutual(es: Edges, p: seq<File>, v: File)
    requires IsCyclePath(es, p) && v in p
    ensures Mutual(es, p[0], v)
  {
    var k :| 0 <= k < |p| && p[k] == v;
    WalkSegment(es, p, 0, k);
    WalkSegment(es, p, k, |p| - 1);
  }

  /** A report whose file set is already listed may be dropped without losing coverage. */
  lemma SameKeySameComponent(es: Edges, p: seq<File>, q: seq<File>, v: File)
    requires IsCyclePath(es, p) && Elements(p) == Elements(q) && |q| > 0 && Mutual(es, v, p[0])
    ensures Mutual(es, v, q[0])
  {
    assert q[0] in Elements(q);
    CycleIsMutual(es, p, q[0]);
    ReachTrans(es, v, p[0], q[0]);
    ReachTrans(es, q[0], p[0], v);
  }

  lemma ReportsAreDistinct(es: Edges, paths: seq<seq<File>>, i: nat, j: nat)
    requires AreCycleReports(es, paths) && i < j < |paths|
    ensures Elements(paths[i]) != Elements(paths[j])
  {
    assert IsCyclePath(es, paths[i]) && IsCyclePath(es, paths[j]);
    if Elements(paths[i]) == Elements(paths[j]) {
      assert paths[j][0] in Elements(paths[i]);
      CycleIsMutual(es, paths[i], paths[j][0]);
    }
  }

  /** Every path's file set is among the reports. */
  ghost predicate ListsAll(cycles: seq<GraphCycle>, paths: seq<seq<File>>) {
    forall p :: p in paths ==> exists c :: c in cycles && Elements(c.path) == Elements(p)
  }

  /** `more` adds reports of `paths` to `cycles` and lists every one of their file sets. */
  ghost predicate Added(cycles: seq<GraphCycle>, more: seq<GraphCycle>, paths: seq<seq<File>>, kind: EdgeKind) {
    && cycles <= more
    && (forall c :: c in more ==> c in cycles || (c.kind == kind && c.path in paths))
    && ListsAll(more, paths)
  }

  /** Adds the paths whose file set is new, in order. */
  method AddNew(cycles: seq<GraphCycle>, paths: seq<seq<File>>, kind: EdgeKind) returns (more: seq<GraphCycle>)
    requires DistinctKeys(cycles)
    ensures Added(cycles, more, paths, kind) && DistinctKeys(more)
  {
    more := cycles;
    var keys := set c | c in cycles :: Elements(c.path);
    for i := 0 to |paths|
      invariant cycles <= more && DistinctKeys(more)
      invariant forall c :: c in more ==> c in cycles || (c.kind == kind && c.path in paths)
      invariant keys == set c | c in more :: Elements(c.path)
      invariant forall p :: p in paths[..i] ==> exists c :: c in more && Elements(c.path) == Elements(p)
    {
      var key := Elements(paths[i]);
      if key in keys {
        continue;
      }
      var c := GraphCycle(paths[i], kind);
      ghost var before := more;
      more := more + [c];
      keys := keys + {key};
      assert c in more && forall d :: d in before ==> d in more;
    }
    assert paths[..|paths|] == paths;
  }

  lemma CoverageFromKeys(es: Edges, paths: seq<seq<File>>, cycles: seq<GraphCycle>)
    requires AreCycleReports(es, paths) && ListsAll(cycles, paths)
    ensures Covers(es, cycles)
  {
    forall v | OnCycle(es, v)
      ensures exists c :: c in cycles && |c.path| > 0 && Mutual(es, v, c.path[0])
    {
      var p :| p in paths && |p| > 0 && Mutual(es, v, p[0]);
      var c :| c in cycles && Elements(c.path) == Elements(p);
      assert p[0] in Elements(c.path);
      SameKeySameComponent(es, p, c.path, v);
    }
  }

  lemma ValueReports(edges: seq<ImportEdge>, paths: seq<seq<File>>)
    requires AreCycleReports(ValueEdges(edges), paths)
    ensures var cycles := seq(|paths|, i requires 0 <= i < |paths| => GraphCycle(paths[i], Value));
      DistinctKeys(cycles) && Added([], cycles, paths, Value)
  {
    var cycles := seq(|paths|, i requires 0 <= i < |paths| => GraphCycle(paths[i], Value));
    forall p | p in paths
      ensures exists c :: c in cycles && Elements(c.path) == Elements(p)
    {
      var k :| 0 <= k < |paths| && paths[k] == p;
      assert cycles[k] in cycles;
    }
    forall i, j | 0 <= i < j < |paths|
      ensures Elements(paths[i]) != Elements(paths[j])
    {
      ReportsAreDistinct(ValueEdges(edges), paths, i, j);
    }
  }

  method CollectCycles(edges: seq<ImportEdge>, name: (File, File) -> bool, locale: (File, File) -> bool)
      returns (cycles: seq<GraphCycle>)
    requires TotalPreorder(name) && TotalPreorder(locale)
    ensures KindsAreCycles(edges, cycles) && DistinctKeys(cycles)
    ensures forall k :: Covers(KindEdges(edges, k), cycles)
    ensures Acyclic(ValueEdges(edges)) <==> forall c :: c in cycles ==> c.kind != Value
    ensures LabelsAreEarned(edges, cycles)
    ensures forall c :: c in cycles && c.kind != Value && OneLoop(Beneath(edges, c.kind)) ==>
              UsesOutside(Beneath(edges, c.kind), c.path)
    ensures FollowRuns(edges, name, cycles)
  {
    hide AreCycleReports, Covers, DistinctKeys, Acyclic, TotalPreorder, ValueEdges, StaticEdges, AllEdges, OneLoop,
         LabelsAreEarned, UsesOutside, KindsAreCycles, FollowSearch, FollowRuns, Added, AsValue, WithoutDynamic;
    var valuePaths := FindValueImportCycles(edges, name, locale);
    cycles := seq(|valuePaths|, i requires 0 <= i < |valuePaths| => GraphCycle(valuePaths[i], Value));
    ValueReports(edges, valuePaths);
    AsValueKeepsPairs(edges);
    AsValueKeepsPairs(WithoutDynamic(edges));
    ghost var c0 := cycles;
    var staticPaths := FindValueImportCycles(AsValue(WithoutDynamic(edges)), name, locale);
    cycles := AddNew(cycles, staticPaths, TypeOnly);
    ghost var c1 := cycles;
    var allPaths := FindValueImportCycles(AsValue(edges), name, locale);
    cycles := AddNew(cycles, allPaths, Dynamic);
    ReportKinds(edges, valuePaths, staticPaths, allPaths, c0, c1, cycles);
    ReportCoverage(edges, valuePaths, staticPaths, allPaths, c0, c1, cycles);
    OneLoopLabels(edges, cycles);
    RunsFollowed(edges, name, valuePaths, staticPaths, allPaths, c0, c1, cycles);
  }

  // ---- what a label is worth ----

  /** The order of the three runs, each over more edges than the one before. */
  function RunOrder(k: EdgeKind): nat {
    match k
    case Value => 0
    case TypeOnly => 1
    case Dynamic => 2
  }

  /** The kind of the run before. */
  function Stronger(k: EdgeKind): EdgeKind {
    match k
    case Value => Value
    case TypeOnly => Value
    case Dynamic => TypeOnly
  }

  function Beneath(edges: seq<ImportEdge>, k: EdgeKind): Edges {
    KindEdges(edges, Stronger(k))
  }

  ghost predicate UsesOutside(es: Edges, p: seq<File>) {
    exists i :: 0 <= i < |p| - 1 && (p[i], p[i + 1]) !in es
  }

  /** A report of an earlier run lies in the same component. */
  ghost predicate BesideStronger(es: Edges, cycles: seq<GraphCycle>, c: GraphCycle) {
    exists d :: d in cycles && RunOrder(d.kind) < RunOrder(c.kind) && |c.path| > 0 && |d.path| > 0
                && Mutual(es, c.path[0], d.path[0])
  }

  /**
   A `type` or `dynamic` report uses an import of that kind, unless a stronger report already stands
   for the same component of the stronger graph.
   */
  ghost predicate LabelsAreEarned(edges: seq<ImportEdge>, cycles: seq<GraphCycle>) {
    forall c :: c in cycles && c.kind != Value ==>
      UsesOutside(Beneath(edges, c.kind), c.path) || BesideStronger(Beneath(edges, c.kind), cycles, c)
  }

  /** All cycles of one component run through the same files; an acyclic graph has no cycle to differ. */
  ghost predicate OneLoop(es: Edges) {
    forall p, q :: IsCyclePath(es, p) && IsCyclePath(es, q) && Mutual(es, p[0], q[0]) ==> Elements(p) == Elements(q)
  }

  lemma InsideIsCycle(strong: Edges, weak: Edges, p: seq<File>)
    requires IsCyclePath(weak, p) && !UsesOutside(strong, p)
    ensures IsCyclePath(strong, p) && OnCycle(strong, p[0])
  {
    CyclePathIsCycle(strong, p);
  }

  lemma LabelsEarned(edges: seq<ImportEdge>, c0: seq<GraphCycle>, c1: seq<GraphCycle>, cycles: seq<GraphCycle>)
    requires KindsAreCycles(edges, cycles) && c0 <= cycles && c1 <= cycles
    requires (forall c :: c in c0 ==> c.kind == Value) && (forall c :: c in c1 ==> c.kind != Dynamic)
    requires Covers(ValueEdges(edges), c0) && Covers(StaticEdges(edges), c1)
    ensures LabelsAreEarned(edges, cycles)
  {
    hide IsCyclePath, OnCycle, UsesOutside, ValueEdges, StaticEdges;
    forall c | c in cycles && c.kind == TypeOnly && !UsesOutside(ValueEdges(edges), c.path)
      ensures BesideStronger(ValueEdges(edges), cycles, c)
    {
      InsideIsCycle(ValueEdges(edges), StaticEdges(edges), c.path);
      var d :| d in c0 && |d.path| > 0 && Mutual(ValueEdges(edges), c.path[0], d.path[0]);
    }
    forall c | c in cycles && c.kind == Dynamic && !UsesOutside(StaticEdges(edges), c.path)
      ensures BesideStronger(StaticEdges(edges), cycles, c)
    {
      InsideIsCycle(StaticEdges(edges), AllEdges(edges), c.path);
      var d :| d in c1 && |d.path| > 0 && Mutual(StaticEdges(edges), c.path[0], d.path[0]);
    }
  }

  lemma KindEdgesGrow(edges: seq<ImportEdge>, j: EdgeKind, k: EdgeKind)
    requires RunOrder(j) <= RunOrder(k)
    ensures KindEdges(edges, j) <= KindEdges(edges, k)
  {
  }

  lemma CyclePathGrows(small: Edges, large: Edges, p: seq<File>)
    requires small <= large && IsCyclePath(small, p)
    ensures IsCyclePath(large, p)
  {
  }

  lemma OneReportPerKey(cycles: seq<GraphCycle>, c: GraphCycle, d: GraphCycle)
    requires DistinctKeys(cycles) && c in cycles && d in cycles && Elements(c.path) == Elements(d.path)
    ensures c == d
  {
  }

  /** A stronger report in the same component would have been the report of the same files. */
  lemma OneLoopLabels(edges: seq<ImportEdge>, cycles: seq<GraphCycle>)
    requires KindsAreCycles(edges, cycles) && DistinctKeys(cycles) && LabelsAreEarned(edges, cycles)
    ensures forall c :: c in cycles && c.kind != Value && OneLoop(Beneath(edges, c.kind)) ==>
              UsesOutside(Beneath(edges, c.kind), c.path)
  {
    hide IsCyclePath, UsesOutside, KindEdges, DistinctKeys, Elements, Mutual;
    forall c | c in cycles && c.kind != Value && OneLoop(Beneath(edges, c.kind))
      ensures UsesOutside(Beneath(edges, c.kind), c.path)
    {
      var es := Beneath(edges, c.kind);
      if !UsesOutside(es, c.path) {
        var d :| d in cycles && RunOrder(d.kind) < RunOrder(c.kind) && |c.path| > 0 && |d.path| > 0
                 && Mutual(es, c.path[0], d.path[0]);
        InsideIsCycle(es, KindEdges(edges, c.kind), c.path);
        KindEdgesGrow(edges, d.kind, Stronger(c.kind));
        CyclePathGrows(KindEdges(edges, d.kind), es, d.path);
        OneReportPerKey(cycles, c, d);
      }
    }
  }

  // ---- which cycles the three runs settle on ----

  /** The edges the run for a kind feeds to the detector. */
  function RunEdges(edges: seq<ImportEdge>, k: EdgeKind): seq<ImportEdge> {
    match k
    case Value => edges
    case TypeOnly => AsValue(WithoutDynamic(edges))
    case Dynamic => AsValue(edges)
  }

  lemma RunGraph(edges: seq<ImportEdge>, k: EdgeKind)
    ensures ValueEdges(RunEdges(edges, k)) == KindEdges(edges, k)
  {
    hide AsValue, WithoutDynamic, ValueEdges, StaticEdges, AllEdges;
    AsValueKeepsPairs(edges);
    AsValueKeepsPairs(WithoutDynamic(edges));
  }

  /** The run for a kind settles on `p` in the component listed as `component`. */
  ghost predicate Settles(edges: seq<ImportEdge>, name: (File, File) -> bool, k: EdgeKind, component: seq<File>,
                          p: seq<File>)
    requires TotalPreorder(name)
  {
    ReportFor(RunEdges(edges, k), name, component, p)
  }

  /** An earlier run settles on a cycle with the same files. */
  ghost predicate Anticipated(edges: seq<ImportEdge>, name: (File, File) -> bool, k: EdgeKind, p: seq<File>)
    requires TotalPreorder(name)
  {
    exists j, component, q ::
      RunOrder(j) < RunOrder(k) && Settles(edges, name, j, component, q) && Elements(q) == Elements(p)
  }

  /** The run for its kind settles on the cycle, and no earlier run does on its files. */
  ghost predicate Reported(edges: seq<ImportEdge>, name: (File, File) -> bool, c: GraphCycle)
    requires TotalPreorder(name)
  {
    (exists component :: Settles(edges, name, c.kind, component, c.path)) && !Anticipated(edges, name, c.kind, c.path)
  }

  /** Each report is one its own run settled on, and under a total order of names the reports are determined. */
  ghost predicate FollowRuns(edges: seq<ImportEdge>, name: (File, File) -> bool, cycles: seq<GraphCycle>)
    requires TotalPreorder(name)
  {
    && (forall c :: c in cycles ==> exists component :: Settles(edges, name, c.kind, component, c.path))
    && (TotalOrder(name) ==> forall c :: c in cycles <==> Reported(edges, name, c))
  }

  ghost predicate Keyed(cycles: seq<GraphCycle>, p: seq<File>, k: EdgeKind) {
    exists c :: c in cycles && Elements(c.path) == Elements(p) && RunOrder(c.kind) <= RunOrder(k)
  }

  /** What a run settles on is listed under its files by it or by an earlier one. */
  ghost predicate AllKeyed(edges: seq<ImportEdge>, name: (File, File) -> bool, cycles: seq<GraphCycle>)
    requires TotalPreorder(name)
  {
    forall k, component, p :: Settles(edges, name, k, component, p) ==> Keyed(cycles, p, k)
  }

  lemma RunsFollowed(edges: seq<ImportEdge>, name: (File, File) -> bool, valuePaths: seq<seq<File>>,
                     staticPaths: seq<seq<File>>, allPaths: seq<seq<File>>,
                     c0: seq<GraphCycle>, c1: seq<GraphCycle>, cycles: seq<GraphCycle>)
    requires TotalPreorder(name) && DistinctKeys(cycles)
    requires FollowSearch(RunEdges(edges, Value), name, valuePaths)
    requires FollowSearch(RunEdges(edges, TypeOnly), name, staticPaths)
    requires FollowSearch(RunEdges(edges, Dynamic), name, allPaths)
    requires AddedInTurn(valuePaths, staticPaths, allPaths, c0, c1, cycles)
    ensures FollowRuns(edges, name, cycles)
  {
    hide TotalPreorder, ReportFor, RunEdges, AddedInTurn, DistinctKeys, Keyed, Reported;
    forall c | c in cycles
      ensures exists component :: Settles(edges, name, c.kind, component, c.path)
    {
      ReportOrigin(valuePaths, staticPaths, allPaths, c0, c1, cycles, c);
      var component :| ReportFor(RunEdges(edges, c.kind), name, component, c.path);
      assert Settles(edges, name, c.kind, component, c.path);
    }
    if TotalOrder(name) {
      forall k, component, p | Settles(edges, name, k, component, p)
        ensures Keyed(cycles, p, k)
      {
        ListedIsKeyed(valuePaths, staticPaths, allPaths, c0, c1, cycles, p, k);
      }
      ReportsAreDetermined(edges, name, cycles);
    }
  }

  lemma ReportsAreDetermined(edges: seq<ImportEdge>, name: (File, File) -> bool, cycles: seq<GraphCycle>)
    requires TotalOrder(name) && DistinctKeys(cycles) && AllKeyed(edges, name, cycles)
    requires forall c :: c in cycles ==> exists component :: Settles(edges, name, c.kind, component, c.path)
    ensures forall c :: c in cycles <==> Reported(edges, name, c)
  {
    hide TotalPreorder, DistinctKeys, Settles, Elements, AllKeyed;
    forall c | c in cycles && Anticipated(edges, name, c.kind, c.path)
      ensures false
    {
      var j, component, q :|
        RunOrder(j) < RunOrder(c.kind) && Settles(edges, name, j, component, q) && Elements(q) == Elements(c.path);
      var d := KeyedReport(edges, name, cycles, j, component, q);
      OneReportPerKey(cycles, c, d);
    }
    forall c | Reported(edges, name, c)
      ensures c in cycles
    {
      var component :| Settles(edges, name, c.kind, component, c.path);
      var d := KeyedReport(edges, name, cycles, c.kind, component, c.path);
      var own :| Settles(edges, name, d.kind, own, d.path);
      if d.kind == c.kind {
        SameFilesSameReport(edges, name, c.kind, component, c.path, own, d.path);
      }
    }
  }

  lemma KeyedReport(edges: seq<ImportEdge>, name: (File, File) -> bool, cycles: seq<GraphCycle>, k: EdgeKind,
                    component: seq<File>, p: seq<File>) returns (d: GraphCycle)
    requires TotalPreorder(name) && AllKeyed(edges, name, cycles) && Settles(edges, name, k, component, p)
    ensures d in cycles && Elements(d.path) == Elements(p) && RunOrder(d.kind) <= RunOrder(k)
  {
    hide TotalPreorder, Settles, Elements;
    assert Keyed(cycles, p, k);
    d :| d in cycles && Elements(d.path) == Elements(p) && RunOrder(d.kind) <= RunOrder(k);
  }

  /** Two cycles a run settles on in components that share a file are one. */
  lemma SameFilesSameReport(edges: seq<ImportEdge>, name: (File, File) -> bool, k: EdgeKind, c: seq<File>, p: seq<File>,
                            d: seq<File>, q: seq<File>)
    requires TotalOrder(name) && Settles(edges, name, k, c, p) && Settles(edges, name, k, d, q)
    requires Elements(p) == Elements(q)
    ensures p == q
  {
    hide TotalPreorder, ValueEdges, RunEdges;
    var es := ValueEdges(RunEdges(edges, k));
    InsideIsPart(es, c, p);
    InsideIsPart(es, d, q);
    assert p[0] in Elements(p) && p[0] in Elements(q);
    ComponentsMeet(es, Elements(c), Elements(d), p[0]);
    SameComponentSameReport(RunEdges(edges, k), name, c, p, d, q);
  }

  /** The reports after each of the three runs. */
  ghost predicate AddedInTurn(valuePaths: seq<seq<File>>, staticPaths: seq<seq<File>>, allPaths: seq<seq<File>>,
                              c0: seq<GraphCycle>, c1: seq<GraphCycle>, cycles: seq<GraphCycle>) {
    && Added([], c0, valuePaths, Value)
    && Added(c0, c1, staticPaths, TypeOnly)
    && Added(c1, cycles, allPaths, Dynamic)
  }

  lemma ReportOrigin(valuePaths: seq<seq<File>>, staticPaths: seq<seq<File>>, allPaths: seq<seq<File>>,
                     c0: seq<GraphCycle>, c1: seq<GraphCycle>, cycles: seq<GraphCycle>, c: GraphCycle)
    requires c in cycles
    ensures AddedInTurn(valuePaths, staticPaths, allPaths, c0, c1, cycles) ==>
            match c.kind
            case Value => c in c0 && c.path in valuePaths
            case TypeOnly => c in c1 && c.path in staticPaths
            case Dynamic => c.path in allPaths
  {
  }

  lemma ListedIsKeyed(valuePaths: seq<seq<File>>, staticPaths: seq<seq<File>>, allPaths: seq<seq<File>>,
                      c0: seq<GraphCycle>, c1: seq<GraphCycle>, cycles: seq<GraphCycle>, p: seq<File>, k: EdgeKind)
    requires AddedInTurn(valuePaths, staticPaths, allPaths, c0, c1, cycles)
    requires match k case Value => p in valuePaths case TypeOnly => p in staticPaths case Dynamic => p in allPaths
    ensures Keyed(cycles, p, k)
  {
    hide Elements;
    match k {
      case Value => var c :| c in c0 && Elements(c.path) == Elements(p);
      case TypeOnly => var c :| c in c1 && Elements(c.path) == Elements(p);
      case Dynamic => var c :| c in cycles && Elements(c.path) == Elements(p);
    }
  }

  lemma ReportKinds(edges: seq<ImportEdge>, valuePaths: seq<seq<File>>, staticPaths: seq<seq<File>>,
                    allPaths: seq<seq<File>>, c0: seq<GraphCycle>, c1: seq<GraphCycle>, cycles: seq<GraphCycle>)
    requires AreCycleReports(ValueEdges(edges), valuePaths)
    requires AreCycleReports(StaticEdges(edges), staticPaths)
    requires AreCycleReports(AllEdges(edges), allPaths)
    requires AddedInTurn(valuePaths, staticPaths, allPaths, c0, c1, cycles)
    requires valuePaths == [] <==> Acyclic(ValueEdges(edges))
    ensures KindsAreCycles(edges, cycles)
    ensures Acyclic(ValueEdges(edges)) <==> forall c :: c in cycles ==> c.kind != Value
  {
    hide IsCyclePath, Acyclic, ValueEdges, StaticEdges, AllEdges, Elements, AddedInTurn;
    forall c | c in cycles
      ensures IsCyclePath(KindEdges(edges, c.kind), c.path)
      ensures c.kind == Value ==> c.path in valuePaths
    {
      ReportOrigin(valuePaths, staticPaths, allPaths, c0, c1, cycles, c);
    }
    if valuePaths != [] {
      ListedIsKeyed(valuePaths, staticPaths, allPaths, c0, c1, cycles, valuePaths[0], Value);
    }
  }

  lemma AllListed(valuePaths: seq<seq<File>>, staticPaths: seq<seq<File>>, allPaths: seq<seq<File>>,
                  c0: seq<GraphCycle>, c1: seq<GraphCycle>, cycles: seq<GraphCycle>)
    requires AddedInTurn(valuePaths, staticPaths, allPaths, c0, c1, cycles)
    ensures ListsAll(c0, valuePaths) && ListsAll(c1, staticPaths) && ListsAll(cycles, allPaths)
    ensures c0 <= cycles && c1 <= cycles
    ensures (forall c :: c in c0 ==> c.kind == Value) && (forall c :: c in c1 ==> c.kind != Dynamic)
  {
    hide Elements;
  }

  lemma ReportCoverage(edges: seq<ImportEdge>, valuePaths: seq<seq<File>>, staticPaths: seq<seq<File>>,
                       allPaths: seq<seq<File>>, c0: seq<GraphCycle>, c1: seq<GraphCycle>, cycles: seq<GraphCycle>)
    requires AreCycleReports(ValueEdges(edges), valuePaths)
    requires AreCycleReports(StaticEdges(edges), staticPaths)
    requires AreCycleReports(AllEdges(edges), allPaths)
    requires AddedInTurn(valuePaths, staticPaths, allPaths, c0, c1, cycles)
    requires KindsAreCycles(edges, cycles)
    ensures forall k :: Covers(KindEdges(edges, k), cycles)
    ensures LabelsAreEarned(edges, cycles)
  {
    hide AreCycleReports, KindsAreCycles, LabelsAreEarned, Covers, ValueEdges, StaticEdges, AllEdges, ListsAll,
         AddedInTurn;
    AllListed(valuePaths, staticPaths, allPaths, c0, c1, cycles);
    CoverageFromKeys(ValueEdges(edges), valuePaths, c0);
    CoverageFromKeys(StaticEdges(edges), staticPaths, c1);
    CoverageFromKeys(AllEdges(edges), allPaths, cycles);
    CoverageGrows(ValueEdges(edges), c0, cycles);
    CoverageGrows(StaticEdges(edges), c1, cycles);
    LabelsEarned(edges, c0, c1, cycles);
  }

  lemma CoverageGrows(es: Edges, cycles: seq<GraphCycle>, more: seq<GraphCycle>)
    requires Covers(es, cycles) && cycles <= more
    ensures Covers(es, more)
  {
    hide OnCycle, Mutual;
    assert forall c :: c in cycles ==> c in more;
  }

  /** Once the stronger graph is acyclic, a cycle of a weaker kind really uses an edge of the weaker kind. */
  lemma WeakCycleUsesWeakEdge(strong: Edges, weak: Edges, p: seq<File>)
    requires Acyclic(strong) && IsCyclePath(weak, p)
    ensures UsesOutside(strong, p)
  {
    if !UsesOutside(strong, p) {
      CyclePathIsCyclic(strong, p);
    }
  }
}
