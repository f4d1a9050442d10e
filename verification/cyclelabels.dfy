/**
 Whether the label `collectCycles` gives a cycle can be taken at its word: what the order of the
 imports decides, and what no order can change.
 */
module CycleLabels {
  import opened Digraph
  import opened Sequences
  import opened CyclePaths
  import opened Layering
  import opened DepGraph
  import opened CycleReport
  import opened Wrappers

  // ---- the first target decides ----

  /** The run for `k` keeps the import. */
  predicate Seen(e: ImportEdge, k: EdgeKind) {
    RunOrder(KindOf(e)) <= RunOrder(k)
  }

  /** What one import adds to the targets of `x`. */
  function AddTarget(known: seq<File>, e: ImportEdge, k: EdgeKind, x: File): seq<File> {
    if Seen(e, k) && e.file == x && e.target !in known then known + [e.target] else known
  }

  function RunTargets(edges: seq<ImportEdge>, k: EdgeKind, x: File): seq<File> {
    Succ(ValueGraph(RunEdges(edges, k)).targets, x)
  }

  lemma RunOfOneMore(edges: seq<ImportEdge>, e: ImportEdge, k: EdgeKind)
    ensures var seen := if k == Value then e else e.(dynamic := false, typeOnly := false);
      RunEdges(edges + [e], k) == RunEdges(edges, k) + (if k == TypeOnly && e.dynamic then [] else [seen])
  {
    assert (edges + [e])[..|edges|] == edges;
  }

  lemma NextTargets(edges: seq<ImportEdge>, e: ImportEdge, k: EdgeKind, x: File)
    ensures RunTargets(edges + [e], k, x) == AddTarget(RunTargets(edges, k, x), e, k, x)
  {
    hide RunEdges, AddToSet;
    RunOfOneMore(edges, e, k);
    var run, seen := RunEdges(edges, k), if k == Value then e else e.(dynamic := false, typeOnly := false);
    assert run + [] == run;
    assert (run + [seen])[..|run|] == run;
    TargetsAfterAdding(ValueGraph(run), e.file, e.target, x);
  }

  /** The first import of `x` that the run keeps is of `y`. */
  ghost predicate Leads(edges: seq<ImportEdge>, k: EdgeKind, x: File, y: File) {
    exists h :: 0 <= h < |edges| && Seen(edges[h], k) && Pair(edges[h]) == (x, y) && Unsourced(edges[..h], k, x)
  }

  ghost predicate Unsourced(edges: seq<ImportEdge>, k: EdgeKind, x: File) {
    forall e :: e in edges && Seen(e, k) ==> e.file != x
  }

  lemma {:induction false} NoTargets(edges: seq<ImportEdge>, k: EdgeKind, x: File)
    requires Unsourced(edges, k, x)
    ensures RunTargets(edges, k, x) == []
  {
    hide RunTargets;
    if edges == [] {
      NothingRun(k, x);
    } else {
      var n := |edges| - 1;
      NoTargets(edges[..n], k, x);
      NextTargets(edges[..n], edges[n], k, x);
      assert edges == edges[..n] + [edges[n]];
    }
  }

  lemma NothingRun(k: EdgeKind, x: File)
    ensures RunTargets([], k, x) == []
  {
  }

  lemma {:induction false} FirstTarget(edges: seq<ImportEdge>, k: EdgeKind, x: File, y: File)
    requires Leads(edges, k, x, y)
    ensures RunTargets(edges, k, x) != [] && RunTargets(edges, k, x)[0] == y
  {
    hide RunTargets;
    var n := |edges| - 1;
    var h :| 0 <= h <= n && Seen(edges[h], k) && Pair(edges[h]) == (x, y) && Unsourced(edges[..h], k, x);
    NextTargets(edges[..n], edges[n], k, x);
    assert edges == edges[..n] + [edges[n]];
    if h == n {
      NoTargets(edges[..n], k, x);
    } else {
      assert edges[..n][h] == edges[h] && edges[..n][..h] == edges[..h];
      FirstTarget(edges[..n], k, x, y);
    }
  }

  // ---- lassos ----

  /** A simple path whose last file leads back to one of its own. */
  datatype Lasso = Lasso(files: seq<File>, back: nat)
  {
    function Next(i: nat): File
      requires i < |files| && back < |files|
    {
      if i + 1 < |files| then files[i + 1] else files[back]
    }

    function Loop(): seq<File>
      requires back < |files|
    {
      files[back..] + [files[back]]
    }

    ghost predicate In(es: Edges) {
      back < |files| && Distinct(files) && forall i :: 0 <= i < |files| ==> (files[i], Next(i)) in es
    }
  }

  ghost predicate FirstTargets(graph: map<File, seq<File>>, w: Lasso)
    requires w.back < |w.files|
  {
    forall i :: 0 <= i < |w.files| ==> Succ(graph, w.files[i]) != [] && Succ(graph, w.files[i])[0] == w.Next(i)
  }

  lemma NextPrefix(files: seq<File>, i: nat)
    requires Distinct(files) && i < |files|
    ensures files[i] !in files[..i] && files[..i + 1] == files[..i] + [files[i]]
    ensures Elements(files[..i + 1]) == Elements(files[..i]) + {files[i]}
  {
  }

  lemma IndexInDistinct(files: seq<File>, k: nat)
    requires Distinct(files) && k < |files|
    ensures IndexOf(files, files[k]) == k
  {
  }

  /** What the first target of the file on top leads to is what its search leads to. */
  lemma FirstTargetDecides(graph: map<File, seq<File>>, members: set<File>, visited: set<File>, stack: seq<File>,
                           file: File, path: seq<File>)
    requires file in members && file !in visited && Succ(graph, file) != [] && Succ(graph, file)[0] in members
    requires var t, s, seen := Succ(graph, file)[0], stack + [file], visited + {file};
      if t in s then path == s[IndexOf(s, t)..] + [t]
      else t !in seen && SearchFrom(graph, members, seen, s, t) == Found(path)
    ensures SearchFrom(graph, members, visited, stack, file) == Found(path)
  {
    hide SearchFrom, SearchTargets, IndexOf;
    SearchOpens(graph, members, visited, stack, file);
    SearchTarget(graph, members, visited + {file}, stack + [file], Succ(graph, file), 0);
  }

  lemma LassoNext(graph: map<File, seq<File>>, members: set<File>, w: Lasso, i: nat)
    requires w.back < |w.files| && FirstTargets(graph, w) && Elements(w.files) <= members && i < |w.files|
    ensures w.files[i] in members && w.Next(i) in members
    ensures Succ(graph, w.files[i]) != [] && Succ(graph, w.files[i])[0] == w.Next(i)
  {
    assert w.files[i] in Elements(w.files) && w.Next(i) in Elements(w.files);
  }

  /** A search that always finds the next file of the lasso first runs along it and round its loop. */
  lemma {:induction false} LassoSearch(graph: map<File, seq<File>>, members: set<File>, w: Lasso, i: nat)
    requires w.back < |w.files| && Distinct(w.files) && FirstTargets(graph, w) && Elements(w.files) <= members
    requires i < |w.files|
    ensures w.files[i] in members && w.files[i] !in Elements(w.files[..i])
    ensures SearchFrom(graph, members, Elements(w.files[..i]), w.files[..i], w.files[i]) == Found(w.Loop())
    decreases |w.files| - i
  {
    hide SearchFrom, IndexOf, Distinct, FirstTargets, Succ;
    var files, n := w.files, |w.files|;
    LassoNext(graph, members, w, i);
    NextPrefix(files, i);
    if i + 1 < n {
      NextPrefix(files, i + 1);
      LassoSearch(graph, members, w, i + 1);
    } else {
      assert files[..n] == files;
      IndexInDistinct(files, w.back);
    }
    FirstTargetDecides(graph, members, Elements(files[..i]), files[..i], files[i], w.Loop());
  }

  lemma LassoRoots(graph: map<File, seq<File>>, members: set<File>, w: Lasso, roots: seq<File>)
    requires w.back < |w.files| && Distinct(w.files) && FirstTargets(graph, w) && Elements(w.files) <= members
    requires roots != [] && roots[0] == w.files[0]
    ensures SearchRoots(graph, members, {}, roots) == Some(w.Loop())
  {
    hide SearchFrom, FirstTargets;
    LassoSearch(graph, members, w, 0);
    assert w.files[..0] == [] && Elements(w.files[..0]) == {};
  }

  lemma LassoIsWalk(es: Edges, w: Lasso)
    requires w.In(es)
    ensures IsWalk(es, w.files) && (w.files[|w.files| - 1], w.files[w.back]) in es
  {
    var n := |w.files| - 1;
    forall i | 0 <= i < n
      ensures (w.files[i], w.files[i + 1]) in es
    {
      assert (w.files[i], w.Next(i)) in es;
    }
    assert (w.files[n], w.Next(n)) in es;
  }

  lemma LassoCloses(es: Edges, w: Lasso)
    requires w.In(es)
    ensures OnCycle(es, w.files[w.back]) && Reach(es, w.files[|w.files| - 1], w.files[w.back])
  {
    hide IsWalk, Reach;
    LassoIsWalk(es, w);
    var n := |w.files| - 1;
    WalkSegment(es, w.files, w.back, n);
    ReachThenEdge(es, w.files[w.back], w.files[n], w.files[w.back]);
    ReachEdge(es, w.files[n], w.files[w.back]);
  }

  /** A lasso that starts and closes in a component stays there. */
  lemma LassoStays(es: Edges, c: set<File>, w: Lasso)
    requires w.In(es) && IsComponent(es, c) && w.files[0] in c && w.files[w.back] in c
    ensures Elements(w.files) <= c
  {
    hide IsWalk, Reach;
    LassoIsWalk(es, w);
    LassoCloses(es, w);
    var n := |w.files| - 1;
    assert Mutual(es, w.files[0], w.files[w.back]);
    forall i | 0 <= i <= n
      ensures w.files[i] in c
    {
      WalkSegment(es, w.files, 0, i);
      WalkSegment(es, w.files, i, n);
      ReachTrans(es, w.files[i], w.files[n], w.files[w.back]);
      ReachTrans(es, w.files[i], w.files[w.back], w.files[0]);
      assert Mutual(es, w.files[0], w.files[i]);
    }
  }

  lemma WholeComponentCycles(es: Edges, c: set<File>, x: File, v: File)
    requires IsComponent(es, c) && x in c && v in c && OnCycle(es, x)
    ensures OnCycle(es, v)
  {
    if v != x {
      ReachSplit(es, v, x);
      var m :| (v, m) in es && Reach(es, m, x);
      ReachTrans(es, m, x, v);
    }
  }

  /** The lasso runs from where the search of the component `c` starts to a loop in that component. */
  ghost predicate Steers(es: Edges, name: (File, File) -> bool, c: seq<File>, w: Lasso)
    requires TotalPreorder(name)
  {
    && Distinct(c) && IsComponent(es, Elements(c)) && w.In(es)
    && w.files[0] == StartOf(c, name) && w.files[w.back] in c
  }

  /** The file `findCyclePath` searches from first. */
  function StartOf(c: seq<File>, name: (File, File) -> bool): (start: File)
    requires TotalPreorder(name)
    ensures c != [] ==> start in c
  {
    SamePermutation(c, Sort(c, name));
    if c == [] then File("") else Sort(c, name)[0]
  }

  ghost predicate LeadsAlong(edges: seq<ImportEdge>, k: EdgeKind, w: Lasso) {
    w.back < |w.files| && forall i :: 0 <= i < |w.files| ==> Leads(edges, k, w.files[i], w.Next(i))
  }

  lemma LeadsAreFirst(edges: seq<ImportEdge>, k: EdgeKind, w: Lasso)
    requires LeadsAlong(edges, k, w)
    ensures FirstTargets(ValueGraph(RunEdges(edges, k)).targets, w)
  {
    hide Leads, ValueGraph, RunEdges;
    forall i | 0 <= i < |w.files|
      ensures RunTargets(edges, k, w.files[i]) != [] && RunTargets(edges, k, w.files[i])[0] == w.Next(i)
    {
      FirstTarget(edges, k, w.files[i], w.Next(i));
    }
  }

  /** A run that finds a lasso's files first, from where its search starts, settles on the loop. */
  lemma LassoSettles(edges: seq<ImportEdge>, name: (File, File) -> bool, k: EdgeKind, c: seq<File>, w: Lasso)
    requires TotalPreorder(name) && Steers(KindEdges(edges, k), name, c, w) && LeadsAlong(edges, k, w)
    ensures Settles(edges, name, k, c, w.Loop())
  {
    hide TotalPreorder, IsComponent, OnCycle, Sort, Distinct, SearchRoots, KindEdges, RunEdges, ValueGraph, LeadsAlong,
         FirstTargets, IsCyclePath;
    var es := KindEdges(edges, k);
    RunGraph(edges, k);
    SamePermutation(c, Sort(c, name));
    LassoStays(es, Elements(c), w);
    LassoCloses(es, w);
    forall v | v in c
      ensures OnCycle(es, v)
    {
      WholeComponentCycles(es, Elements(c), w.files[w.back], v);
    }
    LeadsAreFirst(edges, k, w);
    LassoRoots(ValueGraph(RunEdges(edges, k)).targets, Elements(c), w, Sort(c, name));
    var p := ComponentSettles(RunEdges(edges, k), name, c);
    assert p == w.Loop();
  }

  // ---- a lasso onto any cycle of a component ----

  lemma WalkFromSecond(es: Edges, u: seq<File>)
    requires IsWalk(es, u) && |u| > 1
    ensures IsWalk(es, u[1..]) && (u[0], u[1]) in es
  {
    forall i | 0 <= i < |u| - 2
      ensures (u[1..][i], u[1..][i + 1]) in es
    {
      assert (u[i + 1], u[i + 2]) in es;
    }
  }

  /** A walk into a set contains a simple path that meets the set only at its end. */
  lemma {:induction false} Approach(es: Edges, u: seq<File>, goal: set<File>) returns (r: seq<File>)
    requires IsWalk(es, u) && u[|u| - 1] in goal
    ensures IsWalk(es, r) && Distinct(r) && r[0] == u[0] && r[|r| - 1] in goal
    ensures forall i :: 0 <= i < |r| - 1 ==> r[i] !in goal
  {
    if u[0] in goal {
      r := [u[0]];
    } else {
      WalkFromSecond(es, u);
      var rest := Approach(es, u[1..], goal);
      if u[0] in rest {
        r := rest[IndexOf(rest, u[0])..];
      } else {
        r := [u[0]] + rest;
      }
    }
  }

  /** The files of a cycle, listed from its `k`-th on. */
  function Rotated(p: seq<File>, k: nat): seq<File>
    requires k < |p| - 1
  {
    p[k..|p| - 1] + p[..k]
  }

  /** Every file of the ring leads to the next one, the last to the first. */
  ghost predicate IsRing(es: Edges, ring: seq<File>) {
    ring != [] && Distinct(ring) && forall i :: 0 <= i < |ring| ==> (ring[i], Lasso(ring, 0).Next(i)) in es
  }

  lemma RotatedIsRing(es: Edges, p: seq<File>, k: nat)
    requires IsCyclePath(es, p) && k < |p| - 1
    ensures IsRing(es, Rotated(p, k))
  {
    var n, r := |p| - 1, Rotated(p, k);
    RotatedFiles(es, p, k);
    forall i | 0 <= i < n
      ensures (r[i], Lasso(r, 0).Next(i)) in es
    {
      var at := if k + i < n then k + i else k + i - n;
      assert r[i] == p[at];
      assert (p[at], p[at + 1]) in es;
    }
  }

  lemma RotatedHas(p: seq<File>, k: nat, x: File)
    requires k < |p| - 1 && p[0] == p[|p| - 1]
    ensures x in Rotated(p, k) <==> x in p
  {
    if x in p {
      var i :| 0 <= i < |p| && p[i] == x;
      var at := if i == |p| - 1 then 0 else i;
      assert Rotated(p, k)[if at >= k then at - k else |p| - 1 - k + at] == p[at];
    }
  }

  lemma RotatedFiles(es: Edges, p: seq<File>, k: nat)
    requires IsCyclePath(es, p) && k < |p| - 1
    ensures Distinct(Rotated(p, k)) && Elements(Rotated(p, k)) == Elements(p)
  {
    forall x
      ensures x in Rotated(p, k) <==> x in p
    {
      RotatedHas(p, k, x);
    }
    assert Distinct(p[..|p| - 1]);
  }

  function Onto(r: seq<File>, ring: seq<File>): Lasso
    requires r != []
  {
    Lasso(r[..|r| - 1] + ring, |r| - 1)
  }

  /** Joining an approach to the cycle it meets. */
  lemma OntoIsLasso(es: Edges, r: seq<File>, ring: seq<File>)
    requires IsWalk(es, r) && Distinct(r) && IsRing(es, ring) && r[|r| - 1] == ring[0]
    requires forall i :: 0 <= i < |r| - 1 ==> r[i] !in ring
    ensures Onto(r, ring).In(es) && Onto(r, ring).files[0] == r[0]
    ensures Onto(r, ring).Loop() == ring + [ring[0]]
  {
    var w, n := Onto(r, ring), |r| - 1;
    forall i | 0 <= i < |w.files|
      ensures (w.files[i], w.Next(i)) in es
    {
      if i < n {
        assert (r[i], r[i + 1]) in es;
        assert w.files[i] == r[i] && w.Next(i) == r[i + 1];
      } else {
        assert w.files[i] == ring[i - n] && w.Next(i) == Lasso(ring, 0).Next(i - n);
      }
    }
  }

  lemma RingInside(es: Edges, ring: seq<File>)
    requires IsRing(es, ring)
    ensures !UsesOutside(es, ring + [ring[0]]) && Elements(ring + [ring[0]]) == Elements(ring)
  {
    var p := ring + [ring[0]];
    forall i | 0 <= i < |p| - 1
      ensures (p[i], p[i + 1]) in es
    {
      assert p[i] == ring[i] && p[i + 1] == Lasso(ring, 0).Next(i);
    }
  }

  lemma RingGrows(small: Edges, large: Edges, ring: seq<File>)
    requires small <= large && IsRing(small, ring)
    ensures IsRing(large, ring)
  {
  }

  /** From anywhere that reaches a cycle of `inner`, a lasso of `es` closes in that very cycle. */
  lemma LassoOnto(inner: Edges, es: Edges, start: File, p: seq<File>) returns (w: Lasso)
    requires inner <= es && IsCyclePath(inner, p) && Reach(es, start, p[0])
    ensures w.In(es) && w.files[0] == start && w.files[w.back] in p
    ensures Elements(w.Loop()) == Elements(p) && !UsesOutside(inner, w.Loop())
  {
    hide Distinct, UsesOutside, IsRing;
    var u :| WalkFromTo(es, u, start, p[0]);
    assert p[0] in Elements(p);
    var r := Approach(es, u, Elements(p));
    RotatedFiles(inner, p, 0);
    var x := r[|r| - 1];
    assert x in Elements(Rotated(p, 0)) && Rotated(p, 0) == p[..|p| - 1];
    var k :| 0 <= k < |p| - 1 && p[k] == x;
    var ring := Rotated(p, k);
    RotatedFiles(inner, p, k);
    RotatedIsRing(inner, p, k);
    RingGrows(inner, es, ring);
    assert forall v :: v in ring ==> v in Elements(ring);
    RingInside(inner, ring);
    OntoIsLasso(es, r, ring);
    w := Onto(r, ring);
  }

  ghost function ComponentOf(es: Edges, v: File): set<File> {
    set x | x in Endpoints(es) + {v} && Mutual(es, v, x)
  }

  lemma ComponentOfIsComponent(es: Edges, v: File)
    ensures IsComponent(es, ComponentOf(es, v)) && v in ComponentOf(es, v)
  {
    hide Reach, Endpoints;
    var c := ComponentOf(es, v);
    ReachSelf(es, v);
    assert v in c;
    forall x | Mutual(es, v, x)
      ensures x in c
    {
      EndpointsCover(es);
      MutualIsEndpoint(es, v, x);
    }
    forall x, y | x in c
      ensures y in c <==> Mutual(es, x, y)
    {
      SameClass(es, v, x, y);
    }
  }

  lemma MutualIsEndpoint(es: Edges, v: File, x: File)
    requires Reach(es, x, v)
    ensures x == v || x in Endpoints(es)
  {
    ReachSplit(es, x, v);
    EndpointsCover(es);
  }

  lemma SameClass(es: Edges, v: File, x: File, y: File)
    requires Mutual(es, v, x)
    ensures Mutual(es, v, y) <==> Mutual(es, x, y)
  {
    if Mutual(es, v, y) {
      ReachTrans(es, x, v, y);
      ReachTrans(es, y, v, x);
    }
    if Mutual(es, x, y) {
      ReachTrans(es, v, x, y);
      ReachTrans(es, y, x, v);
    }
  }

  /** The component of a cycle can be steered onto that cycle. */
  lemma SteerOnto(inner: Edges, es: Edges, name: (File, File) -> bool, p: seq<File>) returns (c: seq<File>, w: Lasso)
    requires TotalPreorder(name) && inner <= es && IsCyclePath(inner, p)
    ensures Steers(es, name, c, w) && w.In(es) && Elements(c) == ComponentOf(es, p[0])
    ensures Elements(w.Loop()) == Elements(p) && !UsesOutside(inner, w.Loop())
  {
    hide TotalPreorder, UsesOutside, Distinct;
    ComponentOfIsComponent(es, p[0]);
    c := Listing(ComponentOf(es, p[0]));
    assert p[0] in Elements(c);
    var start := StartOf(c, name);
    assert start in Elements(c);
    assert Mutual(es, p[0], start);
    w := LassoOnto(inner, es, start, p);
    CyclePathGrows(inner, es, p);
    CycleIsMutual(es, p, w.files[w.back]);
    assert w.files[w.back] in Elements(c);
  }

  // ---- listings of given graphs ----

  /** `edges` lists imports whose value, static and full graphs are those of `g`. */
  ghost predicate Lists(edges: seq<ImportEdge>, g: EdgeKind -> Edges) {
    forall k :: KindEdges(edges, k) == g(k)
  }

  ghost predicate Nested(g: EdgeKind -> Edges) {
    g(Value) <= g(TypeOnly) <= g(Dynamic)
  }

  function Imports(pairs: seq<(File, File)>, k: EdgeKind): (r: seq<ImportEdge>)
    ensures |r| == |pairs|
    ensures forall i :: 0 <= i < |r| ==> KindOf(r[i]) == k && Pair(r[i]) == pairs[i]
  {
    seq(|pairs|, i requires 0 <= i < |pairs| => ImportEdge(pairs[i].0, pairs[i].1, k == Dynamic, k == TypeOnly, 1))
  }

  function Steps(w: Lasso): (r: seq<(File, File)>)
    requires w.back < |w.files|
    ensures |r| == |w.files| && forall i :: 0 <= i < |r| ==> r[i] == (w.files[i], w.Next(i))
  {
    seq(|w.files|, i requires 0 <= i < |w.files| => (w.files[i], w.Next(i)))
  }

  /** Which lasso each run is to meet first, if any. */
  type Plan = EdgeKind -> Option<Lasso>

  ghost predicate Fits(g: EdgeKind -> Edges, plan: Plan) {
    forall k :: plan(k).Some? ==> plan(k).value.In(g(k))
  }

  function Block(plan: Plan, k: EdgeKind): seq<ImportEdge> {
    match plan(k)
    case Some(w) => if w.back < |w.files| then Imports(Steps(w), k) else []
    case None => []
  }

  function Blocks(plan: Plan): seq<ImportEdge> {
    Block(plan, Dynamic) + Block(plan, TypeOnly) + Block(plan, Value)
  }

  ghost function Remainder(g: EdgeKind -> Edges): seq<ImportEdge> {
    Imports(Listing(g(Dynamic)), Dynamic) + Imports(Listing(g(TypeOnly)), TypeOnly) + Imports(Listing(g(Value)), Value)
  }

  /** The lassos' own imports, those of the weakest kind first, and then everything else. */
  ghost function Planned(g: EdgeKind -> Edges, plan: Plan): seq<ImportEdge> {
    Blocks(plan) + Remainder(g)
  }

  lemma InImports(pairs: seq<(File, File)>, k: EdgeKind, e: ImportEdge)
    requires e in Imports(pairs, k)
    ensures KindOf(e) == k && Pair(e) in pairs
  {
  }

  lemma InBlock(g: EdgeKind -> Edges, plan: Plan, k: EdgeKind, e: ImportEdge)
    requires Fits(g, plan) && e in Block(plan, k)
    ensures KindOf(e) == k && Pair(e) in g(k)
  {
    var w := plan(k).value;
    InImports(Steps(w), k, e);
    var i :| 0 <= i < |Steps(w)| && Steps(w)[i] == Pair(e);
  }

  lemma InPlanned(g: EdgeKind -> Edges, plan: Plan, e: ImportEdge)
    requires Fits(g, plan) && e in Planned(g, plan)
    ensures Pair(e) in g(KindOf(e))
  {
    hide Block, Imports, Fits;
    if k: EdgeKind :| e in Block(plan, k) {
      InBlock(g, plan, k, e);
    } else {
      var k: EdgeKind :| e in Imports(Listing(g(k)), k);
      InImports(Listing(g(k)), k, e);
      assert Pair(e) in Elements(Listing(g(k)));
    }
  }

  lemma PairListed(g: EdgeKind -> Edges, plan: Plan, k: EdgeKind, pair: (File, File)) returns (e: ImportEdge)
    requires pair in g(k)
    ensures e in Planned(g, plan) && KindOf(e) == k && Pair(e) == pair
  {
    hide Blocks;
    var all := Listing(g(k));
    assert pair in Elements(all);
    var i :| 0 <= i < |all| && all[i] == pair;
    e := Imports(all, k)[i];
    assert e in Imports(all, k);
  }

  lemma KindEdge(edges: seq<ImportEdge>, k: EdgeKind, pair: (File, File))
    ensures pair in KindEdges(edges, k) <==> exists e :: e in edges && Seen(e, k) && Pair(e) == pair
  {
  }

  lemma Nests(g: EdgeKind -> Edges, j: EdgeKind, k: EdgeKind)
    requires Nested(g) && RunOrder(j) <= RunOrder(k)
    ensures g(j) <= g(k)
  {
  }

  lemma PlannedLists(g: EdgeKind -> Edges, plan: Plan)
    requires Nested(g) && Fits(g, plan)
    ensures Lists(Planned(g, plan), g)
  {
    hide Planned, Fits, KindEdges, Nested;
    var edges := Planned(g, plan);
    forall k, pair
      ensures pair in KindEdges(edges, k) <==> pair in g(k)
    {
      KindEdge(edges, k, pair);
      if pair in g(k) {
        var e := PairListed(g, plan, k, pair);
      }
      if e :| e in edges && Seen(e, k) && Pair(e) == pair {
        InPlanned(g, plan, e);
        Nests(g, KindOf(e), k);
      }
    }
  }

  lemma BlockLeads(before: seq<ImportEdge>, w: Lasso, k: EdgeKind, after: seq<ImportEdge>)
    requires w.back < |w.files| && Distinct(w.files) && forall e :: e in before ==> !Seen(e, k)
    ensures LeadsAlong(before + Imports(Steps(w), k) + after, k, w)
  {
    hide Seen;
    var edges, n := before + Imports(Steps(w), k) + after, |before|;
    forall i | 0 <= i < |w.files|
      ensures Leads(edges, k, w.files[i], w.Next(i))
    {
      BlockStep(before, w, k, after, i);
      forall e | e in edges[..n + i] && Seen(e, k)
        ensures e.file != w.files[i]
      {
        var h :| 0 <= h < n + i && edges[h] == e;
        BlockStep(before, w, k, after, if h < n then i else h - n);
      }
    }
  }

  lemma BlockStep(before: seq<ImportEdge>, w: Lasso, k: EdgeKind, after: seq<ImportEdge>, i: nat)
    requires w.back < |w.files| && i < |w.files|
    ensures var edges := before + Imports(Steps(w), k) + after;
      |before| + i < |edges| && Seen(edges[|before| + i], k) && Pair(edges[|before| + i]) == (w.files[i], w.Next(i))
  {
  }

  /** The blocks ahead of a run's own hold imports it does not keep. */
  lemma BlocksAround(g: EdgeKind -> Edges, plan: Plan, k: EdgeKind)
      returns (before: seq<ImportEdge>, after: seq<ImportEdge>)
    requires Fits(g, plan)
    ensures Blocks(plan) == before + Block(plan, k) + after
    ensures forall e :: e in before ==> !Seen(e, k)
  {
    hide Block, Fits;
    var d, t, v := Block(plan, Dynamic), Block(plan, TypeOnly), Block(plan, Value);
    forall j, e | e in Block(plan, j)
      ensures KindOf(e) == j
    {
      InBlock(g, plan, j, e);
    }
    before := match k case Dynamic => [] case TypeOnly => d case Value => d + t;
    after := match k case Dynamic => t + v case TypeOnly => v case Value => [];
  }

  lemma PlanLeads(g: EdgeKind -> Edges, plan: Plan, k: EdgeKind)
    requires Fits(g, plan) && plan(k).Some?
    ensures LeadsAlong(Planned(g, plan), k, plan(k).value)
  {
    hide Remainder, Imports, LeadsAlong, Blocks, Seen, Distinct;
    var before, after := BlocksAround(g, plan, k);
    assert plan(k).value.In(g(k));
    BlockLeads(before, plan(k).value, k, after + Remainder(g));
    assert Planned(g, plan) == before + Block(plan, k) + (after + Remainder(g));
  }

  // ---- which labels no order of the imports can spoil ----

  /** Some cycle of `es` has the files of `q`, and so has every cycle of its component. */
  ghost predicate Forced(es: Edges, q: seq<File>) {
    exists r :: IsCyclePath(es, r) && Elements(r) == Elements(q) &&
      forall p :: IsCyclePath(es, p) && Mutual(es, r[0], p[0]) ==> Elements(p) == Elements(q)
  }

  ghost predicate ForcedBefore(g: EdgeKind -> Edges, k: EdgeKind, q: seq<File>) {
    exists j :: RunOrder(j) < RunOrder(k) && Forced(g(j), q)
  }

  /** The run settles on a cycle of its graph, within the component listed. */
  lemma SettledCycle(edges: seq<ImportEdge>, name: (File, File) -> bool, k: EdgeKind, c: seq<File>, p: seq<File>)
    requires TotalPreorder(name) && Settles(edges, name, k, c, p)
    ensures IsCyclePath(KindEdges(edges, k), p) && IsComponent(KindEdges(edges, k), Elements(c))
    ensures forall x :: x in p ==> x in c
  {
    hide TotalPreorder, RunEdges, KindEdges, ValueEdges;
    RunGraph(edges, k);
    InsideIsPart(KindEdges(edges, k), c, p);
  }

  /** In a component all of whose cycles share their files, the run settles on those files. */
  lemma ForcedIsAnticipated(edges: seq<ImportEdge>, name: (File, File) -> bool, j: EdgeKind, k: EdgeKind, q: seq<File>)
    requires TotalPreorder(name) && RunOrder(j) < RunOrder(k) && Forced(KindEdges(edges, j), q)
    ensures Anticipated(edges, name, k, q)
  {
    hide TotalPreorder, RunEdges, KindEdges, ReportFor, OnCycle, Distinct, ValueEdges;
    var es := KindEdges(edges, j);
    var r :| IsCyclePath(es, r) && Elements(r) == Elements(q) &&
      forall p :: IsCyclePath(es, p) && Mutual(es, r[0], p[0]) ==> Elements(p) == Elements(q);
    RunGraph(edges, j);
    ComponentOfIsComponent(es, r[0]);
    CyclePathIsCycle(es, r);
    var c := Listing(ComponentOf(es, r[0]));
    forall v | v in c
      ensures OnCycle(es, v)
    {
      assert v in Elements(c);
      WholeComponentCycles(es, Elements(c), r[0], v);
    }
    var p := ComponentSettles(RunEdges(edges, j), name, c);
    assert Settles(edges, name, j, c, p);
    SettledCycle(edges, name, j, c, p);
    assert p[0] in Elements(c);
  }

  /** With the loops of an earlier run fixed, what a run reports within the stronger graph is listed already. */
  lemma ForcedLabelsAreEarned(g: EdgeKind -> Edges, name: (File, File) -> bool, k: EdgeKind, edges: seq<ImportEdge>,
                              c: GraphCycle)
    requires TotalPreorder(name) && Lists(edges, g) && Reported(edges, name, c) && c.kind == k
    requires forall q :: IsCyclePath(g(Stronger(k)), q) ==> ForcedBefore(g, k, q)
    ensures UsesOutside(g(Stronger(k)), c.path)
  {
    hide TotalPreorder, Settles, Anticipated, UsesOutside, Forced, IsCyclePath, KindEdges;
    var component :| Settles(edges, name, k, component, c.path);
    SettledCycle(edges, name, k, component, c.path);
    if !UsesOutside(g(Stronger(k)), c.path) {
      InsideIsCycle(g(Stronger(k)), KindEdges(edges, k), c.path);
      var j :| RunOrder(j) < RunOrder(k) && Forced(g(j), c.path);
      ForcedIsAnticipated(edges, name, j, k, c.path);
    }
  }

  /** Where the lasso leads decides what the run reports about the component. */
  lemma SettlesElsewhere(edges: seq<ImportEdge>, name: (File, File) -> bool, k: EdgeKind, c: seq<File>, p: seq<File>,
                         x: File, d: seq<File>, r: seq<File>)
    requires TotalOrder(name) && Settles(edges, name, k, c, p) && Settles(edges, name, k, d, r) && x in c && x in r
    ensures r == p
  {
    hide TotalPreorder, RunEdges, KindEdges, IsCyclePath, OnCycle, SearchRoots, ValueGraph, IsComponent, Distinct;
    SettledCycle(edges, name, k, c, p);
    SettledCycle(edges, name, k, d, r);
    assert x in Elements(c) && x in Elements(d);
    ComponentsMeet(KindEdges(edges, k), Elements(c), Elements(d), x);
    SameComponentSameReport(RunEdges(edges, k), name, d, r, c, p);
  }

  /** A lasso, when one is needed, that keeps the run over `es` off the files of `q`. */
  ghost predicate Averts(es: Edges, name: (File, File) -> bool, q: seq<File>, w: Option<Lasso>)
    requires TotalPreorder(name)
  {
    match w
    case None => forall r :: IsCyclePath(es, r) ==> Elements(r) != Elements(q)
    case Some(l) => exists c, x :: Steers(es, name, c, l) && x in c && x in q && Elements(l.Loop()) != Elements(q)
  }

  lemma Avert(es: Edges, name: (File, File) -> bool, q: seq<File>) returns (w: Option<Lasso>)
    requires TotalPreorder(name) && !Forced(es, q)
    ensures Averts(es, name, q, w) && (w.Some? ==> w.value.In(es))
  {
    hide TotalPreorder, Distinct, IsComponent;
    if r :| IsCyclePath(es, r) && Elements(r) == Elements(q) {
      var p :| IsCyclePath(es, p) && Mutual(es, r[0], p[0]) && Elements(p) != Elements(q);
      var c, l := SteerOnto(es, es, name, p);
      ComponentOfIsComponent(es, p[0]);
      assert r[0] in Elements(r) && r[0] in q;
      BothWays(es, p[0], r[0]);
      w := Some(l);
    } else {
      w := None;
    }
  }

  lemma BothWays(es: Edges, p: File, r: File)
    requires IsComponent(es, ComponentOf(es, p)) && p in ComponentOf(es, p) && Mutual(es, r, p)
    ensures r in ComponentOf(es, p)
  {
    assert Mutual(es, p, r);
  }

  lemma AvertedNotSettled(edges: seq<ImportEdge>, name: (File, File) -> bool, k: EdgeKind, q: seq<File>,
                          w: Option<Lasso>, d: seq<File>, r: seq<File>)
    requires TotalOrder(name) && Averts(KindEdges(edges, k), name, q, w)
    requires w.Some? && w.value.back < |w.value.files| ==> LeadsAlong(edges, k, w.value)
    requires Settles(edges, name, k, d, r)
    ensures Elements(r) != Elements(q)
  {
    hide TotalPreorder, Settles, KindEdges, LeadsAlong, IsCyclePath, IsComponent, Distinct, StartOf;
    SettledCycle(edges, name, k, d, r);
    if w.Some? {
      var c, x :| Steers(KindEdges(edges, k), name, c, w.value) && x in c && x in q &&
        Elements(w.value.Loop()) != Elements(q);
      LassoSettles(edges, name, k, c, w.value);
      if Elements(r) == Elements(q) {
        assert x in Elements(q);
        SettlesElsewhere(edges, name, k, c, w.value.Loop(), x, d, r);
      }
    }
  }

  /** The run for `k` is to settle on the files of `q`, and every earlier one on others. */
  ghost predicate Spoils(g: EdgeKind -> Edges, name: (File, File) -> bool, k: EdgeKind, q: seq<File>, plan: Plan)
    requires TotalPreorder(name)
  {
    && Fits(g, plan) && plan(k).Some?
    && (exists c :: Steers(g(k), name, c, plan(k).value))
    && Elements(plan(k).value.Loop()) == Elements(q)
    && (forall j :: RunOrder(j) < RunOrder(k) ==> Averts(g(j), name, q, plan(j)))
  }

  lemma SpoiledReport(g: EdgeKind -> Edges, name: (File, File) -> bool, k: EdgeKind, q: seq<File>, plan: Plan)
    requires TotalOrder(name) && Nested(g) && Spoils(g, name, k, q, plan)
    ensures Reported(Planned(g, plan), name, GraphCycle(plan(k).value.Loop(), k))
  {
    hide TotalPreorder, Settles, Planned, LeadsAlong, Averts, Nested, KindEdges;
    var edges, w := Planned(g, plan), plan(k).value;
    PlannedLists(g, plan);
    PlanLeads(g, plan, k);
    var c :| Steers(g(k), name, c, w);
    LassoSettles(edges, name, k, c, w);
    forall j, d, r | RunOrder(j) < RunOrder(k) && Settles(edges, name, j, d, r)
      ensures Elements(r) != Elements(w.Loop())
    {
      if plan(j).Some? {
        PlanLeads(g, plan, j);
      }
      AvertedNotSettled(edges, name, j, q, plan(j), d, r);
    }
  }

  lemma Spoil(g: EdgeKind -> Edges, name: (File, File) -> bool, k: EdgeKind, q: seq<File>) returns (plan: Plan)
    requires TotalPreorder(name) && Nested(g) && k != Value
    requires IsCyclePath(g(Stronger(k)), q) && !ForcedBefore(g, k, q)
    ensures Spoils(g, name, k, q, plan) && !UsesOutside(g(Stronger(k)), plan(k).value.Loop())
  {
    hide TotalPreorder, IsCyclePath, Forced, UsesOutside, Steers, Averts;
    Nests(g, Stronger(k), k);
    var c, w := SteerOnto(g(Stronger(k)), g(k), name, q);
    var v := Avert(g(Value), name, q);
    var t := None;
    if k == Dynamic {
      t := Avert(g(TypeOnly), name, q);
    }
    plan := j => if j == k then Some(w) else if j == Value then v else if j == TypeOnly then t else None;
    assert plan(k) == Some(w) && Steers(g(k), name, c, w);
    forall j
      ensures RunOrder(j) < RunOrder(k) ==> Averts(g(j), name, q, plan(j))
      ensures plan(j).Some? ==> plan(j).value.In(g(j))
    {
      assert RunOrder(j) < RunOrder(k) ==> j == Value || j == TypeOnly;
    }
  }

  /**
   Exactly when labels can be taken at their word, whatever the order of names: in every listing of the
   three graphs each report of kind `k` uses an import outside the stronger graph, if and only if every
   cycle of the stronger graph has its files forced upon an earlier run.
   */
  lemma LabelsEarnedExactly(g: EdgeKind -> Edges, name: (File, File) -> bool, k: EdgeKind)
    requires TotalOrder(name) && Nested(g) && k != Value
    ensures (forall q :: IsCyclePath(g(Stronger(k)), q) ==> ForcedBefore(g, k, q)) <==>
            forall edges, c :: Lists(edges, g) && Reported(edges, name, c) && c.kind == k ==>
              UsesOutside(g(Stronger(k)), c.path)
  {
    hide TotalPreorder, IsCyclePath, ForcedBefore, UsesOutside, Reported, Lists, Nested, Spoils;
    if forall q :: IsCyclePath(g(Stronger(k)), q) ==> ForcedBefore(g, k, q) {
      forall edges, c | Lists(edges, g) && Reported(edges, name, c) && c.kind == k
        ensures UsesOutside(g(Stronger(k)), c.path)
      {
        ForcedLabelsAreEarned(g, name, k, edges, c);
      }
    } else {
      var q :| IsCyclePath(g(Stronger(k)), q) && !ForcedBefore(g, k, q);
      var edges, c := UnearnedLabel(g, name, k, q);
    }
  }

  /** Some listing makes the run for `k` report the files of `q` with imports of the stronger graph only. */
  lemma UnearnedLabel(g: EdgeKind -> Edges, name: (File, File) -> bool, k: EdgeKind, q: seq<File>)
      returns (edges: seq<ImportEdge>, c: GraphCycle)
    requires TotalOrder(name) && Nested(g) && k != Value
    requires IsCyclePath(g(Stronger(k)), q) && !ForcedBefore(g, k, q)
    ensures Lists(edges, g) && Reported(edges, name, c) && c.kind == k && Elements(c.path) == Elements(q)
    ensures !UsesOutside(g(Stronger(k)), c.path)
  {
    hide TotalPreorder, IsCyclePath, ForcedBefore, UsesOutside, Reported, Lists, Nested, Planned, Averts, Steers;
    var plan := Spoil(g, name, k, q);
    PlannedLists(g, plan);
    SpoiledReport(g, name, k, q, plan);
    edges, c := Planned(g, plan), GraphCycle(plan(k).value.Loop(), k);
  }

  lemma {:induction false} OneLoopIsForced(es: Edges)
    ensures OneLoop(es) <==> forall q :: IsCyclePath(es, q) ==> Forced(es, q)
  {
    hide Mutual;
    if OneLoop(es) {
      forall q | IsCyclePath(es, q)
        ensures Forced(es, q)
      {
        assert Elements(q) == Elements(q);
      }
    } else {
      var p, q :| IsCyclePath(es, p) && IsCyclePath(es, q) && Mutual(es, p[0], q[0]) && Elements(p) != Elements(q);
      if Forced(es, q) {
        ForcedAll(es, q, p);
      }
    }
  }

  lemma ForcedAll(es: Edges, q: seq<File>, p: seq<File>)
    requires IsCyclePath(es, q) && IsCyclePath(es, p) && Mutual(es, p[0], q[0]) && Forced(es, q)
    ensures Elements(p) == Elements(q)
  {
    hide Reach;
    var r :| IsCyclePath(es, r) && Elements(r) == Elements(q) &&
      forall p :: IsCyclePath(es, p) && Mutual(es, r[0], p[0]) ==> Elements(p) == Elements(q);
    assert q[0] in Elements(q);
    CycleIsMutual(es, r, q[0]);
    SameClass(es, q[0], r[0], p[0]);
  }

  /**
   For `type`, the condition is about the value graph alone: all cycles of one component run through the
   same files.
   */
  lemma TypeLabelsEarnedExactly(values: Edges, statics: Edges, name: (File, File) -> bool)
    requires TotalOrder(name) && values <= statics
    ensures OneLoop(values) <==>
            forall edges, c ::
              ValueEdges(edges) == values && StaticEdges(edges) == statics &&
              Reported(edges, name, c) && c.kind == TypeOnly ==>
                UsesOutside(values, c.path)
  {
    hide TotalPreorder, UsesOutside, Reported, OneLoop, Forced, IsCyclePath, ValueEdges, StaticEdges, AllEdges;
    OneLoopIsForced(values);
    if OneLoop(values) {
      forall edges, c | ValueEdges(edges) == values && StaticEdges(edges) == statics && Reported(edges, name, c) &&
                        c.kind == TypeOnly
        ensures UsesOutside(values, c.path)
      {
        var g := k => KindEdges(edges, k);
        assert forall q :: IsCyclePath(g(Stronger(TypeOnly)), q) ==> Forced(g(Value), q);
        ForcedLabelsAreEarned(g, name, TypeOnly, edges, c);
      }
    } else {
      var q :| IsCyclePath(values, q) && !Forced(values, q);
      var g := (k: EdgeKind) => if k == Value then values else statics;
      var edges, c := UnearnedLabel(g, name, TypeOnly, q);
      assert KindEdges(edges, Value) == values && KindEdges(edges, TypeOnly) == statics;
    }
  }

  // ---- a label that is not earned ----

  function Import(from: File, to: File, typeOnly: bool): ImportEdge {
    ImportEdge(from, to, false, typeOnly, 1)
  }

  /** Value imports both ways between `a` and each of `b` and `c`, and a type import of `c` ahead of them. */
  function TwoLoops(a: File, b: File, c: File): seq<ImportEdge> {
    [Import(a, c, true), Import(a, b, false), Import(b, a, false), Import(a, c, false), Import(c, a, false)]
  }

  function LoopEdges(a: File, b: File, c: File): Edges {
    {(a, b), (b, a), (a, c), (c, a)}
  }

  lemma InTwoLoops(a: File, b: File, c: File, e: ImportEdge)
    ensures e in TwoLoops(a, b, c) <==>
            e == Import(a, c, true) || e == Import(a, b, false) || e == Import(b, a, false) || e == Import(a, c, false)
            || e == Import(c, a, false)
  {
    var edges := TwoLoops(a, b, c);
    assert edges[0] in edges && edges[1] in edges && edges[2] in edges && edges[3] in edges && edges[4] in edges;
  }

  lemma TwoLoopsEdges(a: File, b: File, c: File)
    ensures KindEdges(TwoLoops(a, b, c), Value) == LoopEdges(a, b, c)
    ensures KindEdges(TwoLoops(a, b, c), TypeOnly) == LoopEdges(a, b, c)
  {
    hide TwoLoops;
    var edges := TwoLoops(a, b, c);
    forall e
      ensures e in edges && !e.dynamic ==> Pair(e) in LoopEdges(a, b, c)
    {
      InTwoLoops(a, b, c, e);
    }
    InTwoLoops(a, b, c, Import(a, b, false));
    InTwoLoops(a, b, c, Import(b, a, false));
    InTwoLoops(a, b, c, Import(a, c, false));
    InTwoLoops(a, b, c, Import(c, a, false));
  }

  lemma LoopComponent(a: File, b: File, c: File)
    ensures var es := LoopEdges(a, b, c);
      && IsComponent(es, {a, b, c}) && forall v :: OnCycle(es, v) <==> v in {a, b, c}
  {
    var es := LoopEdges(a, b, c);
    ReachSelf(es, a);
    ReachSelf(es, b);
    ReachSelf(es, c);
    assert (a, b) in es && (b, a) in es && (a, c) in es && (c, a) in es;
    forall x, y | x in {a, b, c} && y in {a, b, c}
      ensures Mutual(es, x, y)
    {
      LoopReach(a, b, c, x);
      LoopReach(a, b, c, y);
      ReachTrans(es, x, a, y);
      ReachTrans(es, y, a, x);
    }
    forall x, y | x in {a, b, c} && Reach(es, x, y)
      ensures y in {a, b, c}
    {
      ClosedStays(es, {a, b, c}, x, y);
    }
    ReachEdge(es, b, a);
    ReachEdge(es, a, b);
    ReachEdge(es, a, c);
    assert OnCycle(es, a) && OnCycle(es, b) && OnCycle(es, c);
  }

  lemma LoopReach(a: File, b: File, c: File, x: File)
    requires x in {a, b, c}
    ensures Reach(LoopEdges(a, b, c), a, x) && Reach(LoopEdges(a, b, c), x, a)
  {
    var es := LoopEdges(a, b, c);
    if x == a {
      ReachSelf(es, a);
    } else {
      ReachEdge(es, a, x);
      ReachEdge(es, x, a);
    }
  }

  /** The first target of `a` differs between the two runs. */
  lemma TwoLoopsLead(a: File, b: File, c: File)
    requires a != b && b != c && a != c
    ensures LeadsAlong(TwoLoops(a, b, c), Value, Lasso([a, b], 0))
    ensures LeadsAlong(TwoLoops(a, b, c), TypeOnly, Lasso([a, c], 0))
  {
    var edges := TwoLoops(a, b, c);
    assert Pair(edges[1]) == (a, b) && Unsourced(edges[..1], Value, a);
    assert Pair(edges[2]) == (b, a) && Unsourced(edges[..2], Value, b);
    assert Pair(edges[0]) == (a, c) && Unsourced(edges[..0], TypeOnly, a);
    assert Pair(edges[4]) == (c, a) && Unsourced(edges[..4], TypeOnly, c);
  }

  lemma SortedNames(a: File, b: File, c: File, name: (File, File) -> bool)
    requires TotalOrder(name) && name(a, b) && name(b, c) && a != b && b != c && a != c
    ensures Distinct([a, b, c]) && Elements([a, b, c]) == {a, b, c} && StartOf([a, b, c], name) == a
  {
    hide TotalPreorder, Sort;
    NamesInOrder(a, b, c, name);
    SortedIsUnique(Sort([a, b, c], name), [a, b, c], name);
  }

  lemma NamesInOrder(a: File, b: File, c: File, name: (File, File) -> bool)
    requires TotalOrder(name) && name(a, b) && name(b, c)
    ensures Sorted([a, b, c], name)
  {
  }

  lemma LoopSteers(a: File, b: File, c: File, x: File, name: (File, File) -> bool)
    requires TotalOrder(name) && name(a, b) && name(b, c) && a != b && b != c && a != c && x in {b, c}
    ensures Steers(LoopEdges(a, b, c), name, [a, b, c], Lasso([a, x], 0))
    ensures Lasso([a, x], 0).Loop() == [a, x, a] && !UsesOutside(LoopEdges(a, b, c), [a, x, a])
  {
    hide TotalPreorder, IsComponent, OnCycle, StartOf;
    LoopComponent(a, b, c);
    SortedNames(a, b, c, name);
  }

  /**
   On five imports among three files, one cycle comes back labelled `type` although both its imports are
   value imports: the type import moves `c` to the front of the targets of `a`, so the second run finds
   the other loop.
   */
  lemma LabelWithoutItsKind(name: (File, File) -> bool, a: File, b: File, c: File, cycles: seq<GraphCycle>)
    requires TotalOrder(name) && name(a, b) && name(b, c) && a != b && b != c && a != c
    requires FollowRuns(TwoLoops(a, b, c), name, cycles)
    ensures GraphCycle([a, c, a], TypeOnly) in cycles
    ensures !UsesOutside(ValueEdges(TwoLoops(a, b, c)), [a, c, a])
  {
    hide TotalPreorder, TwoLoops, Settles, ValueEdges, StaticEdges, Steers, LeadsAlong, LoopEdges, UsesOutside;
    var edges := TwoLoops(a, b, c);
    TwoLoopsEdges(a, b, c);
    TwoLoopsLead(a, b, c);
    LoopSteers(a, b, c, b, name);
    LoopSteers(a, b, c, c, name);
    LassoSettles(edges, name, Value, [a, b, c], Lasso([a, b], 0));
    LassoSettles(edges, name, TypeOnly, [a, b, c], Lasso([a, c], 0));
    forall d, r | Settles(edges, name, Value, d, r)
      ensures Elements(r) != Elements([a, c, a])
    {
      if a in r {
        SettlesElsewhere(edges, name, Value, [a, b, c], [a, b, a], a, d, r);
      }
      assert a in Elements([a, c, a]) && c in Elements([a, c, a]) && c !in [a, b, a];
    }
    assert Reported(edges, name, GraphCycle([a, c, a], TypeOnly));
  }
}
