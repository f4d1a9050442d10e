/** The dependency-graph report of scripts/depgraph/model.ts: collapsed edges, redundancy marks and levels. */
module DepGraph {
  import opened Digraph
  import opened Sequences
  import opened Layering
  import opened Searches
  import opened Reduction

  datatype EdgeKind = TypeOnly | Dynamic | Value

  function KindOf(e: ImportEdge): EdgeKind {
    if e.dynamic then Dynamic else if e.typeOnly then TypeOnly else Value
  }

  function Strength(k: EdgeKind): nat {
    match k
    case TypeOnly => 0
    case Dynamic => 1
    case Value => 2
  }

  class GraphEdge {
    const from: File
    const to: File
    const kind: EdgeKind
    const line: nat
    var transitivelyReachable: bool

    constructor (e: ImportEdge)
      ensures from == e.file && to == e.target && kind == KindOf(e) && line == e.line
      ensures !transitivelyReachable
    {
      from, to, kind, line, transitivelyReachable := e.file, e.target, KindOf(e), e.line, false;
    }
  }

  /** The value edges of a collapsed list. */
  ghost function ValuePairs(edges: seq<GraphEdge>): Edges {
    set e | e in edges && e.kind == Value :: (e.from, e.to)
  }

  // ---- collapsing ----

  /** `g` stands for its pair: it copies the first raw edge of the strongest kind that pair has. */
  ghost predicate StandsFor(edges: seq<ImportEdge>, g: GraphEdge) {
    exists i :: 0 <= i < |edges| && IsChampion(edges, i) &&
      edges[i].file == g.from && edges[i].target == g.to && KindOf(edges[i]) == g.kind && edges[i].line == g.line
  }

  ghost predicate IsChampion(edges: seq<ImportEdge>, i: nat)
    requires i < |edges|
  {
    && (forall j :: 0 <= j < |edges| && Pair(edges[j]) == Pair(edges[i]) ==>
          Strength(KindOf(edges[j])) <= Strength(KindOf(edges[i])))
    && (forall j :: 0 <= j < i && Pair(edges[j]) == Pair(edges[i]) ==>
          Strength(KindOf(edges[j])) < Strength(KindOf(edges[i])))
  }

  function RawPairs(edges: seq<ImportEdge>): Edges {
    set e | e in edges && e.file != e.target :: Pair(e)
  }

  ghost predicate Collapsing(edges: seq<ImportEdge>, byPair: map<(File, File), GraphEdge>) {
    && byPair.Keys == RawPairs(edges)
    && forall p :: p in byPair ==> (byPair[p].from, byPair[p].to) == p && StandsFor(edges, byPair[p])
  }

  ghost predicate SamePairs(edges: seq<ImportEdge>, collapsed: seq<GraphEdge>) {
    && (forall g :: g in collapsed ==> (g.from, g.to) in RawPairs(edges) && StandsFor(edges, g))
    && (forall p :: p in RawPairs(edges) ==> exists g :: g in collapsed && (g.from, g.to) == p)
    && (forall i, j :: 0 <= i < j < |collapsed| ==>
          (collapsed[i].from, collapsed[i].to) != (collapsed[j].from, collapsed[j].to))
  }

  lemma ChampionStays(edges: seq<ImportEdge>, e: ImportEdge, g: GraphEdge)
    requires StandsFor(edges, g)
    requires (g.from, g.to) == Pair(e) ==> Strength(KindOf(e)) <= Strength(g.kind)
    ensures StandsFor(edges + [e], g)
  {
    var i :| 0 <= i < |edges| && IsChampion(edges, i) &&
      edges[i].file == g.from && edges[i].target == g.to && KindOf(edges[i]) == g.kind && edges[i].line == g.line;
    var more := edges + [e];
    assert more[i] == edges[i];
    assert IsChampion(more, i) by {
      assert forall j :: 0 <= j < |edges| ==> more[j] == edges[j];
    }
  }

  lemma NewChampion(edges: seq<ImportEdge>, e: ImportEdge, g: GraphEdge)
    requires (g.from, g.to) == Pair(e) && g.kind == KindOf(e) && g.line == e.line
    requires forall x :: x in edges && Pair(x) == Pair(e) ==> Strength(KindOf(x)) < Strength(KindOf(e))
    ensures StandsFor(edges + [e], g)
  {
    var more := edges + [e];
    assert more[|edges|] == e;
    assert forall j :: 0 <= j < |edges| ==> more[j] == edges[j] && edges[j] in edges;
    assert IsChampion(more, |edges|);
  }

  lemma CollapseKeeps(edges: seq<ImportEdge>, e: ImportEdge, byPair: map<(File, File), GraphEdge>)
    requires Collapsing(edges, byPair)
    requires e.file == e.target ||
             (Pair(e) in byPair && Strength(byPair[Pair(e)].kind) >= Strength(KindOf(e)))
    ensures Collapsing(edges + [e], byPair)
  {
    hide StandsFor;
    assert RawPairs(edges + [e]) == RawPairs(edges);
    forall p | p in byPair
      ensures StandsFor(edges + [e], byPair[p])
    {
      assert p in RawPairs(edges);
      ChampionStays(edges, e, byPair[p]);
    }
  }

  lemma CollapseReplaces(edges: seq<ImportEdge>, e: ImportEdge, byPair: map<(File, File), GraphEdge>, g: GraphEdge)
    requires Collapsing(edges, byPair) && e.file != e.target
    requires Pair(e) in byPair ==> Strength(byPair[Pair(e)].kind) < Strength(KindOf(e))
    requires (g.from, g.to) == Pair(e) && g.kind == KindOf(e) && g.line == e.line
    ensures Collapsing(edges + [e], byPair[Pair(e) := g])
  {
    hide StandsFor;
    assert RawPairs(edges + [e]) == RawPairs(edges) + {Pair(e)};
    forall x | x in edges && Pair(x) == Pair(e)
      ensures Strength(KindOf(x)) < Strength(KindOf(e))
    {
      assert Pair(e) in RawPairs(edges);
      StrongestIsStrongest(edges, x, byPair[Pair(e)]);
    }
    NewChampion(edges, e, g);
    forall p | p in byPair && p != Pair(e)
      ensures StandsFor(edges + [e], byPair[p])
    {
      ChampionStays(edges, e, byPair[p]);
    }
  }

  lemma StrongestIsStrongest(edges: seq<ImportEdge>, x: ImportEdge, g: GraphEdge)
    requires StandsFor(edges, g) && x in edges && Pair(x) == (g.from, g.to)
    ensures Strength(KindOf(x)) <= Strength(g.kind)
  {
  }

  /** `from` imports `to` with the flags of the kind. */
  ghost predicate ImportsAs(edges: seq<ImportEdge>, i: nat, from: File, to: File, kind: EdgeKind) {
    i < |edges| && edges[i].file == from && edges[i].target == to &&
    match kind
    case Value => !edges[i].dynamic && !edges[i].typeOnly
    case Dynamic => edges[i].dynamic
    case TypeOnly => !edges[i].dynamic && edges[i].typeOnly
  }

  ghost predicate ImportsSomewhere(edges: seq<ImportEdge>, from: File, to: File, kind: EdgeKind) {
    exists i: nat :: ImportsAs(edges, i, from, to, kind)
  }

  /**
   What the flags of a pair's imports make of it: a value edge if any import is one, else a dynamic edge
   if any import is dynamic, with the line of the first import of that kind.
   */
  ghost predicate ReadsFlags(edges: seq<ImportEdge>, g: GraphEdge) {
    && (g.kind == Value <==> ImportsSomewhere(edges, g.from, g.to, Value))
    && (g.kind == Dynamic <==>
          !ImportsSomewhere(edges, g.from, g.to, Value) && ImportsSomewhere(edges, g.from, g.to, Dynamic))
    && exists i: nat :: ImportsAs(edges, i, g.from, g.to, g.kind) && edges[i].line == g.line &&
         forall j: nat :: j < i ==> !ImportsAs(edges, j, g.from, g.to, g.kind)
  }

  lemma FlagsAreKind(edges: seq<ImportEdge>, i: nat, from: File, to: File, kind: EdgeKind)
    ensures ImportsAs(edges, i, from, to, kind) <==>
            i < |edges| && Pair(edges[i]) == (from, to) && KindOf(edges[i]) == kind
  {
  }

  lemma StrongestReadsFlags(edges: seq<ImportEdge>, g: GraphEdge)
    requires StandsFor(edges, g)
    ensures ReadsFlags(edges, g)
  {
    hide ImportsAs;
    var i :| 0 <= i < |edges| && IsChampion(edges, i) &&
      edges[i].file == g.from && edges[i].target == g.to && KindOf(edges[i]) == g.kind && edges[i].line == g.line;
    forall j: nat, kind
      ensures ImportsAs(edges, j, g.from, g.to, kind) <==>
              j < |edges| && Pair(edges[j]) == (g.from, g.to) && KindOf(edges[j]) == kind
    {
      FlagsAreKind(edges, j, g.from, g.to, kind);
    }
    assert ImportsAs(edges, i, g.from, g.to, g.kind);
  }

  /** Order by importing file, then by imported file. */
  function PairOrder(le: (File, File) -> bool): (pairLe: ((File, File), (File, File)) -> bool)
    requires TotalPreorder(le)
    ensures TotalPreorder(pairLe)
  {
    var pairLe := (p: (File, File), q: (File, File)) =>
      if le(p.0, q.0) && le(q.0, p.0) then le(p.1, q.1) else le(p.0, q.0);
    assert forall p, q :: pairLe(p, q) == if le(p.0, q.0) && le(q.0, p.0) then le(p.1, q.1) else le(p.0, q.0);
    pairLe
  }

  /** `collapseEdges`: one edge per pair, without self edges, sorted. */
  method CollapseEdges(edges: seq<ImportEdge>, le: (File, File) -> bool) returns (collapsed: seq<GraphEdge>)
    requires TotalPreorder(le)
    ensures SamePairs(edges, collapsed)
    ensures forall g :: g in collapsed ==> fresh(g) && !g.transitivelyReachable
    ensures Sorted(seq(|collapsed|, i requires 0 <= i < |collapsed| => (collapsed[i].from, collapsed[i].to)),
      PairOrder(le))
    ensures forall g :: g in collapsed ==> ReadsFlags(edges, g)
    ensures forall i, j :: 0 <= i < j < |collapsed| ==>
              le(collapsed[i].from, collapsed[j].from) &&
              (le(collapsed[j].from, collapsed[i].from) ==> le(collapsed[i].to, collapsed[j].to))
  {
    hide Collapsing, Distinct, TotalPreorder, SamePairs, ReadsFlags, PairOrder;
    var byPair: map<(File, File), GraphEdge> := map[];
    var order: seq<(File, File)> := [];
    CollapseStart(edges);
    for i := 0 to |edges|
      invariant Collapsing(edges[..i], byPair)
      invariant Distinct(order) && Elements(order) == byPair.Keys
      invariant forall p :: p in byPair ==> fresh(byPair[p]) && !byPair[p].transitivelyReachable
    {
      var e := edges[i];
      assert edges[..i + 1] == edges[..i] + [e];
      if e.file == e.target || (Pair(e) in byPair && Strength(byPair[Pair(e)].kind) >= Strength(KindOf(e))) {
        CollapseKeeps(edges[..i], e, byPair);
        continue;
      }
      var g := new GraphEdge(e);
      CollapseReplaces(edges[..i], e, byPair, g);
      if Pair(e) !in byPair {
        AppendDistinct(order, Pair(e));
        order := order + [Pair(e)];
      }
      byPair := byPair[Pair(e) := g];
    }
    assert edges[..|edges|] == edges;
    var sorted := Sort(order, PairOrder(le));
    SamePermutation(order, sorted);
    PermutationKeepsDistinct(order, sorted);
    assert Elements(sorted) == byPair.Keys;
    assert forall i :: 0 <= i < |sorted| ==> sorted[i] in Elements(sorted);
    collapsed := seq(|sorted|, i requires 0 <= i < |sorted| => byPair[sorted[i]]);
    CollapseDone(edges, byPair, sorted, collapsed);
    FilesInOrder(collapsed, sorted, le);
    AllReadFlags(edges, collapsed);
  }

  lemma AllReadFlags(edges: seq<ImportEdge>, collapsed: seq<GraphEdge>)
    requires SamePairs(edges, collapsed)
    ensures forall g :: g in collapsed ==> ReadsFlags(edges, g)
  {
    hide StandsFor, ReadsFlags;
    forall g | g in collapsed
      ensures ReadsFlags(edges, g)
    {
      StrongestReadsFlags(edges, g);
    }
  }

  lemma FilesInOrder(collapsed: seq<GraphEdge>, keys: seq<(File, File)>, le: (File, File) -> bool)
    requires TotalPreorder(le) && Sorted(keys, PairOrder(le)) && |collapsed| == |keys|
    requires forall i :: 0 <= i < |keys| ==> (collapsed[i].from, collapsed[i].to) == keys[i]
    ensures forall i, j :: 0 <= i < j < |collapsed| ==>
              le(collapsed[i].from, collapsed[j].from) &&
              (le(collapsed[j].from, collapsed[i].from) ==> le(collapsed[i].to, collapsed[j].to))
  {
    forall i, j | 0 <= i < j < |collapsed|
      ensures le(collapsed[i].from, collapsed[j].from)
      ensures le(collapsed[j].from, collapsed[i].from) ==> le(collapsed[i].to, collapsed[j].to)
    {
      assert PairOrder(le)(keys[i], keys[j]);
    }
  }

  lemma CollapseStart(edges: seq<ImportEdge>)
    ensures Collapsing(edges[..0], map[]) && Distinct<(File, File)>([])
  {
  }

  lemma CollapseDone(edges: seq<ImportEdge>, byPair: map<(File, File), GraphEdge>, keys: seq<(File, File)>,
                     collapsed: seq<GraphEdge>)
    requires Collapsing(edges, byPair) && Distinct(keys) && Elements(keys) == byPair.Keys
    requires |collapsed| == |keys|
    requires forall i :: 0 <= i < |keys| ==> keys[i] in byPair && collapsed[i] == byPair[keys[i]]
    ensures SamePairs(edges, collapsed)
    ensures seq(|collapsed|, i requires 0 <= i < |collapsed| => (collapsed[i].from, collapsed[i].to)) == keys
    ensures forall i :: 0 <= i < |keys| ==> (collapsed[i].from, collapsed[i].to) == keys[i]
  {
  }

  /** The value graph survives collapsing, minus the files that import themselves. */
  lemma CollapsedValueGraph(edges: seq<ImportEdge>, collapsed: seq<GraphEdge>)
    requires SamePairs(edges, collapsed)
    ensures ValuePairs(collapsed) == set p | p in ValueEdges(edges) && p.0 != p.1
  {
    forall p | p in ValueEdges(edges) && p.0 != p.1
      ensures p in ValuePairs(collapsed)
    {
      var e :| e in edges && IsValue(e) && Pair(e) == p;
      assert p in RawPairs(edges);
      var g :| g in collapsed && (g.from, g.to) == p;
      StrongestIsStrongest(edges, e, g);
    }
    forall p | p in ValuePairs(collapsed)
      ensures p in ValueEdges(edges) && p.0 != p.1
    {
      var g :| g in collapsed && g.kind == Value && (g.from, g.to) == p;
      var i :| 0 <= i < |edges| && edges[i].file == g.from && edges[i].target == g.to && KindOf(edges[i]) == g.kind;
      assert edges[i] in edges && IsValue(edges[i]) && Pair(edges[i]) == p;
    }
  }

  /** Which pairs survive, and with which kind, does not depend on the order of the raw edges. */
  lemma CollapseIgnoresOrder(edges: seq<ImportEdge>, shuffled: seq<ImportEdge>,
                             collapsed: seq<GraphEdge>, other: seq<GraphEdge>, g: GraphEdge)
    requires multiset(shuffled) == multiset(edges)
    requires SamePairs(edges, collapsed) && SamePairs(shuffled, other) && g in collapsed
    ensures exists h :: h in other && h.from == g.from && h.to == g.to && h.kind == g.kind
  {
    SamePermutation(edges, shuffled);
    assert (g.from, g.to) in RawPairs(shuffled);
    var h :| h in other && (h.from, h.to) == (g.from, g.to);
    var x := KindIsTaken(edges, g);
    var y := KindIsTaken(shuffled, h);
    StrongestIsStrongest(edges, y, g);
    StrongestIsStrongest(shuffled, x, h);
  }

  lemma KindIsTaken(edges: seq<ImportEdge>, g: GraphEdge) returns (x: ImportEdge)
    requires StandsFor(edges, g)
    ensures x in edges && Pair(x) == (g.from, g.to) && KindOf(x) == g.kind
  {
    var i :| 0 <= i < |edges| && edges[i].file == g.from && edges[i].target == g.to && KindOf(edges[i]) == g.kind;
    x := edges[i];
  }

  /** Whatever passes the value-cycle gate collapses to an acyclic graph, so the level guard is never needed. */
  lemma GateMakesCollapsedAcyclic(edges: seq<ImportEdge>, collapsed: seq<GraphEdge>)
    requires SamePairs(edges, collapsed) && Acyclic(ValueEdges(edges))
    ensures ValuePairs(collapsed) == ValueEdges(edges) && Acyclic(ValuePairs(collapsed))
  {
    CollapsedValueGraph(edges, collapsed);
    forall p | p in ValueEdges(edges)
      ensures p.0 != p.1
    {
      if p.0 == p.1 {
        ReachSelf(ValueEdges(edges), p.0);
        assert OnCycle(ValueEdges(edges), p.0);
      }
    }
  }

  // ---- marking edges that are reachable some other way ----

  method ValueSuccessors(edges: seq<GraphEdge>) returns (successors: map<File, seq<File>>)
    ensures Represents(successors, ValuePairs(edges))
  {
    successors := map[];
    for i := 0 to |edges|
      invariant Represents(successors, ValuePairs(edges[..i]))
    {
      var e := edges[i];
      assert edges[..i + 1] == edges[..i] + [e];
      if e.kind != Value {
        assert ValuePairs(edges[..i + 1]) == ValuePairs(edges[..i]);
        continue;
      }
      assert ValuePairs(edges[..i + 1]) == ValuePairs(edges[..i]) + {(e.from, e.to)};
      successors := successors[e.from := Succ(successors, e.from) + [e.to]];
    }
    assert edges[..|edges|] == edges;
  }

  /** What `reachableBeyondDirectEdge` answers for an edge of `es`. */
  ghost predicate Marked(es: Edges, e: GraphEdge) {
    Redundant(es, (e.from, e.to)) || SelfEdgeLeak(es, e.from, e.to)
  }

  /** `markTransitivelyReachableEdges`: writes the mark of every value edge and nothing else. */
  method MarkTransitivelyReachableEdges(edges: seq<GraphEdge>)
    modifies edges`transitivelyReachable
    ensures forall e :: e in edges && e.kind == Value ==> (e.transitivelyReachable <==> Marked(ValuePairs(edges), e))
    ensures forall e :: e in edges && e.kind != Value ==> e.transitivelyReachable == old(e.transitivelyReachable)
  {
    var successors := ValueSuccessors(edges);
    ghost var es := ValuePairs(edges);
    for i := 0 to |edges|
      invariant forall e :: e in edges[..i] && e.kind == Value ==> (e.transitivelyReachable <==> Marked(es, e))
      invariant forall e :: e in edges && e.kind != Value ==> e.transitivelyReachable == old(e.transitivelyReachable)
    {
      var edge := edges[i];
      if edge.kind != Value {
        continue;
      }
      edge.transitivelyReachable :=
        ReachableBeyondDirectEdge(edge.from, edge.to, successors, es, Endpoints(es) + {edge.from});
    }
  }

  /** On collapsed edges there are no self edges, so the mark is reachability without the direct edge. */
  lemma MarkIsRedundancy(edges: seq<ImportEdge>, collapsed: seq<GraphEdge>, e: GraphEdge)
    requires SamePairs(edges, collapsed)
    ensures Marked(ValuePairs(collapsed), e) <==> Redundant(ValuePairs(collapsed), (e.from, e.to))
    ensures e in collapsed ==>
              (Marked(ValuePairs(collapsed), e) <==> Reach(Without(ValuePairs(collapsed), e.from, e.to), e.from, e.to))
  {
    CollapsedValueGraph(edges, collapsed);
    var rest := Without(ValuePairs(collapsed), e.from, e.to);
    if ReachPlus(rest, e.from, e.to) {
      ReachPlusIsReach(rest, e.from, e.to);
    }
    if Reach(rest, e.from, e.to) {
      ReachSplit(rest, e.from, e.to);
    }
  }

  /**
   On a graph the gate accepts, deleting every marked edge at once keeps all reachability, and no
   other set of edges that does so is smaller. (Reachability only: bindings are not modelled.)
   */
  lemma MarksAreTheReduction(edges: seq<ImportEdge>, collapsed: seq<GraphEdge>, unmarked: Edges)
    requires SamePairs(edges, collapsed) && Acyclic(ValueEdges(edges))
    requires unmarked ==
      set e | e in collapsed && e.kind == Value && !Marked(ValuePairs(collapsed), e) :: (e.from, e.to)
    ensures SameReach(ValueEdges(edges), unmarked)
    ensures forall kept :: kept <= ValueEdges(edges) && SameReach(ValueEdges(edges), kept) ==> unmarked <= kept
  {
    GateMakesCollapsedAcyclic(edges, collapsed);
    var es := ValuePairs(collapsed);
    forall p
      ensures p in unmarked <==> p in Unmarked(es)
    {
      if p in es {
        var e :| e in collapsed && e.kind == Value && (e.from, e.to) == p;
        MarkIsRedundancy(edges, collapsed, e);
        if p in unmarked {
          var f :| f in collapsed && f.kind == Value && !Marked(es, f) && (f.from, f.to) == p;
          MarkIsRedundancy(edges, collapsed, f);
        }
      }
    }
    assert unmarked == Unmarked(es);
    TransitiveReduction(es);
  }

  // ---- levels ----

  /** A walk of `h` edges starts at `v`. */
  ghost predicate HasWalk(es: Edges, v: File, h: int) {
    exists p :: IsWalk(es, p) && p[0] == v && |p| == h + 1
  }

  /** `h` is the length of a longest walk from `v`. */
  ghost predicate IsHeight(es: Edges, v: File, h: int) {
    HasWalk(es, v, h) && forall k :: HasWalk(es, v, k) ==> k <= h
  }

  lemma WalkExtends(es: Edges, v: File, w: File, h: int)
    requires (v, w) in es && HasWalk(es, w, h)
    ensures HasWalk(es, v, h + 1)
  {
    var p :| IsWalk(es, p) && p[0] == w && |p| == h + 1;
    var q := [v] + p;
    forall i | 0 <= i < |q| - 1
      ensures (q[i], q[i + 1]) in es
    {
      if i > 0 {
        assert (p[i - 1], p[i]) in es;
      }
    }
    assert IsWalk(es, q) && |q| == h + 2;
  }

  lemma WalkShrinks(es: Edges, v: File, h: int)
    requires HasWalk(es, v, h) && h > 0
    ensures exists w :: (v, w) in es && HasWalk(es, w, h - 1)
  {
    var p :| IsWalk(es, p) && p[0] == v && |p| == h + 1;
    var q := p[1..];
    forall i | 0 <= i < |q| - 1
      ensures (q[i], q[i + 1]) in es
    {
      assert (p[i + 1], p[i + 2]) in es;
    }
    assert (v, p[1]) in es && IsWalk(es, q) && q[0] == p[1] && |q| == h;
  }

  /** `best` is one more than the longest walk from the successors handled so far, or 0. */
  ghost predicate BestSoFar(es: Edges, v: File, handled: set<File>, best: nat) {
    && HasWalk(es, v, best)
    && (Acyclic(es) ==> forall w, k :: w in handled && HasWalk(es, w, k) ==> k < best)
  }

  lemma BestStarts(es: Edges, v: File)
    ensures BestSoFar(es, v, {}, 0)
  {
    assert IsWalk(es, [v]);
  }

  lemma BestGrows(es: Edges, v: File, handled: set<File>, best: nat, w: File, below: nat)
    requires BestSoFar(es, v, handled, best) && (v, w) in es && HasWalk(es, w, below)
    requires Acyclic(es) ==> IsHeight(es, w, below)
    ensures BestSoFar(es, v, handled + {w}, if below + 1 > best then below + 1 else best)
  {
    WalkExtends(es, v, w, below);
  }

  lemma BestIsHeight(es: Edges, v: File, handled: set<File>, best: nat)
    requires BestSoFar(es, v, handled, best) && forall w :: (v, w) in es ==> w in handled
    ensures HasWalk(es, v, best) && (Acyclic(es) ==> IsHeight(es, v, best))
  {
    forall k | HasWalk(es, v, k) && Acyclic(es)
      ensures k <= best
    {
      if k > 0 {
        WalkShrinks(es, v, k);
      }
    }
  }

  /** Every value edge leads to a strictly lower level. */
  lemma LevelsDecrease(es: Edges, levels: map<File, nat>, v: File, w: File)
    requires v in levels && w in levels && IsHeight(es, v, levels[v]) && IsHeight(es, w, levels[w])
    requires (v, w) in es
    ensures levels[w] < levels[v]
  {
    WalkExtends(es, v, w, levels[w]);
  }

  lemma BestIsWalk(es: Edges, v: File, handled: set<File>, best: nat)
    requires BestSoFar(es, v, handled, best)
    ensures HasWalk(es, v, best)
  {
  }

  lemma GuardNeedsCycle(es: Edges, visiting: set<File>, id: File)
    requires forall u :: u in visiting ==> ReachPlus(es, u, id)
    ensures Acyclic(es) ==> id !in visiting
  {
    assert id in visiting ==> OnCycle(es, id);
  }

  lemma StillAbove(es: Edges, visiting: set<File>, id: File, next: File)
    requires (forall u :: u in visiting ==> ReachPlus(es, u, id)) && (id, next) in es
    ensures forall u :: u in visiting + {id} ==> ReachPlus(es, u, next)
  {
    ReachSelf(es, id);
    forall u | u in visiting + {id}
      ensures ReachPlus(es, u, next)
    {
      if u != id {
        ReachPlusIsReach(es, u, id);
      }
      ReachThenEdge(es, u, id, next);
    }
  }

  class LevelWalk {
    const successors: map<File, seq<File>>
    ghost const es: Edges
    ghost const files: set<File>
    var levels: map<File, nat>
    var visiting: set<File>

    /** Recorded levels are always lengths of walks, and on an acyclic graph of longest ones. */
    ghost predicate Valid()
      reads this
    {
      && Represents(successors, es)
      && (forall a, b :: (a, b) in es ==> b in files)
      && visiting <= files
      && forall v :: v in levels ==> v in files && HasWalk(es, v, levels[v])
                                     && (Acyclic(es) ==> IsHeight(es, v, levels[v]))
    }

    constructor (successors: map<File, seq<File>>, ghost es: Edges, ghost files: set<File>)
      requires Represents(successors, es) && forall a, b :: (a, b) in es ==> b in files
      ensures Valid() && levels == map[] && visiting == {}
      ensures this.es == es && this.files == files
    {
      this.successors, this.es, this.files := successors, es, files;
      levels, visiting := map[], {};
    }

    /** Terminates on every graph; the guard answers 0 only for a file on a cycle. */
    method Height(id: File) returns (h: nat)
      requires Valid() && id in files
      requires forall u :: u in visiting ==> ReachPlus(es, u, id)
      modifies this
      ensures Valid() && visiting == old(visiting)
      ensures forall v :: v in old(levels) ==> v in levels && levels[v] == old(levels)[v]
      ensures id in old(levels) || id !in visiting ==> id in levels && levels[id] == h
      ensures HasWalk(es, id, h)
      ensures Acyclic(es) ==> IsHeight(es, id, h) && id !in visiting
      decreases files - visiting
    {
      hide HasWalk, IsHeight, BestSoFar, Reach, ReachPlus, Acyclic;
      BestStarts(es, id);
      BestIsWalk(es, id, {}, 0);
      GuardNeedsCycle(es, visiting, id);
      if id in levels {
        return levels[id];
      }
      if id in visiting {
        return 0;
      }
      visiting := visiting + {id};
      var best := 0;
      var targets := Succ(successors, id);
      assert Elements(targets[..0]) == {};
      for i := 0 to |targets|
        invariant Valid() && visiting == old(visiting) + {id}
        invariant forall v :: v in old(levels) ==> v in levels && levels[v] == old(levels)[v]
        invariant BestSoFar(es, id, Elements(targets[..i]), best)
      {
        var next := targets[i];
        assert (id, next) in es;
        StillAbove(es, old(visiting), id, next);
        assert targets[..i + 1] == targets[..i] + [next];
        assert Elements(targets[..i + 1]) == Elements(targets[..i]) + {next};
        var below := Height(next);
        BestGrows(es, id, Elements(targets[..i]), best, next, below);
        best := if below + 1 > best then below + 1 else best;
      }
      assert targets[..|targets|] == targets;
      BestIsHeight(es, id, Elements(targets), best);
      visiting := visiting - {id};
      levels := levels[id := best];
      h := best;
    }
  }

  /** `computeLevels`: exact on the graphs the gate lets through, and total on all others. */
  method ComputeLevels(nodes: seq<File>, edges: seq<GraphEdge>) returns (levels: map<File, nat>)
    ensures forall n :: n in nodes ==> n in levels
    ensures forall v :: v in levels ==> HasWalk(ValuePairs(edges), v, levels[v])
    ensures Acyclic(ValuePairs(edges)) ==> forall v :: v in levels ==> IsHeight(ValuePairs(edges), v, levels[v])
  {
    hide HasWalk, IsHeight, Acyclic, ReachPlus, ValuePairs, Represents, Endpoints;
    var successors := ValueSuccessors(edges);
    ghost var es := ValuePairs(edges);
    EndpointsCover(es);
    var walk := new LevelWalk(successors, es, Endpoints(es) + Elements(nodes));
    for i := 0 to |nodes|
      invariant fresh(walk) && walk.Valid() && walk.visiting == {} && walk.es == es
      invariant walk.files == Endpoints(es) + Elements(nodes)
      invariant forall n :: n in nodes[..i] ==> n in walk.levels
    {
      var h := walk.Height(nodes[i]);
    }
    levels := walk.levels;
  }
}
