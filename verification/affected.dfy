/** The blast-radius report of scripts/depgraph/affected.ts. */
module Affected {
  import opened Digraph
  import opened Sequences
  import opened DepGraph
  import opened Layering
  import opened Searches

  function Reversed(es: Edges): Edges {
    set e | e in es :: (e.1, e.0)
  }

  lemma {:induction false} ReverseWalk(es: Edges, p: seq<File>) returns (q: seq<File>)
    requires IsWalk(es, p)
    ensures WalkFromTo(Reversed(es), q, p[|p| - 1], p[0])
  {
    q := seq(|p|, i requires 0 <= i < |p| => p[|p| - 1 - i]);
    forall i | 0 <= i < |q| - 1
      ensures (q[i], q[i + 1]) in Reversed(es)
    {
      var k := |p| - 2 - i;
      assert (p[k], p[k + 1]) in es;
    }
  }

  /** Walking importers backwards from `b` meets exactly the files that reach `b` forwards. */
  lemma ReverseReach(es: Edges, a: File, b: File)
    ensures Reach(Reversed(es), b, a) <==> Reach(es, a, b)
  {
    assert Reversed(Reversed(es)) == es by {
      forall e | e in es
        ensures e in Reversed(Reversed(es))
      {
        assert (e.1, e.0) in Reversed(es);
      }
    }
    if Reach(es, a, b) {
      var p :| WalkFromTo(es, p, a, b);
      var q := ReverseWalk(es, p);
    }
    if Reach(Reversed(es), b, a) {
      var p :| WalkFromTo(Reversed(es), p, b, a);
      var q := ReverseWalk(Reversed(es), p);
    }
  }

  method ValuePredecessors(edges: seq<GraphEdge>) returns (predecessors: map<File, seq<File>>)
    ensures Represents(predecessors, Reversed(ValuePairs(edges)))
  {
    predecessors := map[];
    for i := 0 to |edges|
      invariant Represents(predecessors, Reversed(ValuePairs(edges[..i])))
    {
      var e := edges[i];
      assert edges[..i + 1] == edges[..i] + [e];
      if e.kind != Value {
        assert ValuePairs(edges[..i + 1]) == ValuePairs(edges[..i]);
        continue;
      }
      assert ValuePairs(edges[..i + 1]) == ValuePairs(edges[..i]) + {(e.from, e.to)};
      ReversedGrows(ValuePairs(edges[..i]), e.from, e.to);
      predecessors := predecessors[e.to := Succ(predecessors, e.to) + [e.from]];
    }
    assert edges[..|edges|] == edges;
  }

  lemma ReversedGrows(es: Edges, a: File, b: File)
    ensures Reversed(es + {(a, b)}) == Reversed(es) + {(b, a)}
  {
  }

  datatype DependentSet = DependentSet(direct: seq<File>, all: seq<File>, transitiveOnly: seq<File>)

  /** A sorted duplicate-free listing of a set of files. */
  ghost predicate Lists(s: seq<File>, files: set<File>, le: (File, File) -> bool) {
    Elements(s) == files && Distinct(s) && Sorted(s, le)
  }

  method SortedListing(files: set<File>, le: (File, File) -> bool) returns (s: seq<File>)
    requires TotalPreorder(le)
    ensures Lists(s, files, le)
  {
    hide Sorted, TotalPreorder;
    var rest, unsorted := files, [];
    while rest != {}
      invariant Elements(unsorted) == files - rest && rest <= files && Distinct(unsorted)
      invariant forall x :: x in rest ==> x !in unsorted
      decreases rest
    {
      var x :| x in rest;
      AppendDistinct(unsorted, x);
      assert Elements(unsorted + [x]) == Elements(unsorted) + {x};
      rest := rest - {x};
      unsorted := unsorted + [x];
    }
    s := Sort(unsorted, le);
    SamePermutation(unsorted, s);
    PermutationKeepsDistinct(unsorted, s);
    assert Elements(s) == Elements(unsorted);
  }

  function Keep(s: seq<File>, drop: set<File>): (r: seq<File>)
    ensures forall v :: v in r <==> v in s && v !in drop
  {
    if s == [] then [] else Keep(s[..|s| - 1], drop) + (if s[|s| - 1] in drop then [] else [s[|s| - 1]])
  }

  lemma {:induction false} KeepLists(s: seq<File>, drop: set<File>, le: (File, File) -> bool)
    requires Distinct(s) && Sorted(s, le)
    ensures Distinct(Keep(s, drop)) && Sorted(Keep(s, drop), le)
  {
    if s != [] {
      var n := |s| - 1;
      KeepLists(s[..n], drop, le);
      var r := Keep(s[..n], drop);
      forall i | 0 <= i < |r|
        ensures le(r[i], s[n]) && r[i] != s[n]
      {
        assert r[i] in s[..n];
      }
    }
  }

  /** The files that import `file` directly, and those that reach it over one or more value imports. */
  ghost function DirectDependents(es: Edges, file: File): set<File> {
    set a | a in Endpoints(es) && (a, file) in es
  }

  ghost function AllDependents(es: Edges, file: File): set<File> {
    set a | a in Endpoints(es) && a != file && Reach(es, a, file)
  }

  /** `collectDependents` */
  method CollectDependents(file: File, edges: seq<GraphEdge>, le: (File, File) -> bool) returns (d: DependentSet)
    requires TotalPreorder(le)
    ensures Lists(d.direct, DirectDependents(ValuePairs(edges), file), le)
    ensures Lists(d.all, AllDependents(ValuePairs(edges), file), le)
    ensures Lists(d.transitiveOnly,
                  AllDependents(ValuePairs(edges), file) - DirectDependents(ValuePairs(edges), file), le)
  {
    hide TotalPreorder, Sorted, Reach;
    var predecessors := ValuePredecessors(edges);
    ghost var es := ValuePairs(edges);
    var directSet := Elements(Succ(predecessors, file));
    var direct := SortedListing(directSet, le);
    EndpointsCover(Reversed(es));
    var closure := Reachable(file, predecessors, Reversed(es), Endpoints(Reversed(es)) + {file});
    var all := SortedListing(closure, le);
    KeepLists(all, directSet, le);
    DependentsAgree(es, file, directSet, closure);
    d := DependentSet(direct, all, Keep(all, directSet));
  }

  lemma DependentsAgree(es: Edges, file: File, direct: set<File>, closure: set<File>)
    requires forall a :: a in direct <==> (file, a) in Reversed(es)
    requires forall a :: a in closure <==> a != file && Reach(Reversed(es), file, a)
    ensures direct == DirectDependents(es, file) && closure == AllDependents(es, file)
  {
    forall a
      ensures a in direct <==> a in DirectDependents(es, file)
      ensures a in closure <==> a in AllDependents(es, file)
    {
      EndpointsCover(es);
      ReverseReach(es, a, file);
      if Reach(es, a, file) && a != file {
        ReachSplit(es, a, file);
      }
    }
  }

  /** Without self imports the direct dependents are among all dependents, so the two lists partition them. */
  lemma DependentsPartition(es: Edges, file: File)
    ensures DirectDependents(es, file) - {file} <= AllDependents(es, file)
    ensures (file, file) !in es ==> DirectDependents(es, file) <= AllDependents(es, file)
  {
    forall a | (a, file) in es
      ensures Reach(es, a, file)
    {
      ReachEdge(es, a, file);
    }
  }

  // ---- commands reaching a file ----

  datatype CommandChain = CommandChain(command: string, route: string, entry: File)

  ghost function ExecutablePairs(edges: seq<GraphEdge>): Edges {
    set e | e in edges && e.kind != TypeOnly :: (e.from, e.to)
  }

  method ExecutableSuccessors(edges: seq<GraphEdge>) returns (successors: map<File, seq<File>>)
    ensures Represents(successors, ExecutablePairs(edges))
  {
    successors := map[];
    for i := 0 to |edges|
      invariant Represents(successors, ExecutablePairs(edges[..i]))
    {
      var e := edges[i];
      assert edges[..i + 1] == edges[..i] + [e];
      if e.kind == TypeOnly {
        assert ExecutablePairs(edges[..i + 1]) == ExecutablePairs(edges[..i]);
        continue;
      }
      assert ExecutablePairs(edges[..i + 1]) == ExecutablePairs(edges[..i]) + {(e.from, e.to)};
      successors := successors[e.from := Succ(successors, e.from) + [e.to]];
    }
    assert edges[..|edges|] == edges;
  }

  /**
   What a file can load: on collapsed edges the executable graph consists of the pairs that some import
   other than a plain type import connects, files that import themselves aside.
   */
  lemma CollapsedExecutableGraph(edges: seq<ImportEdge>, collapsed: seq<GraphEdge>)
    requires SamePairs(edges, collapsed)
    ensures forall a, b :: (a, b) in ExecutablePairs(collapsed) <==>
              a != b && exists e :: e in edges && e.file == a && e.target == b && (e.dynamic || !e.typeOnly)
  {
    hide StandsFor, ReadsFlags, ImportsAs;
    forall a, b
      ensures (a, b) in ExecutablePairs(collapsed) <==>
              a != b && exists e :: e in edges && e.file == a && e.target == b && (e.dynamic || !e.typeOnly)
    {
      LoadsAre(edges, a, b);
      if (a, b) in ExecutablePairs(collapsed) {
        var g :| g in collapsed && g.kind != TypeOnly && (g.from, g.to) == (a, b);
        StrongestReadsFlags(edges, g);
        KindIsFlagged(edges, g);
      }
      if (a, b) in RawPairs(edges) {
        var g :| g in collapsed && (g.from, g.to) == (a, b);
        StrongestReadsFlags(edges, g);
        KindIsFlagged(edges, g);
      }
    }
  }

  lemma LoadsAre(edges: seq<ImportEdge>, a: File, b: File)
    ensures ImportsSomewhere(edges, a, b, Value) || ImportsSomewhere(edges, a, b, Dynamic) <==>
            exists e :: e in edges && e.file == a && e.target == b && (e.dynamic || !e.typeOnly)
    ensures (exists e :: e in edges && e.file == a && e.target == b) && a != b <==> (a, b) in RawPairs(edges)
  {
    if e :| e in edges && e.file == a && e.target == b && (e.dynamic || !e.typeOnly) {
      var i :| 0 <= i < |edges| && edges[i] == e;
      assert ImportsAs(edges, i, a, b, if e.dynamic then Dynamic else Value);
    }
  }

  lemma KindIsFlagged(edges: seq<ImportEdge>, g: GraphEdge)
    requires ReadsFlags(edges, g)
    ensures g.kind != TypeOnly <==>
            ImportsSomewhere(edges, g.from, g.to, Value) || ImportsSomewhere(edges, g.from, g.to, Dynamic)
  {
  }

  /** The chains whose handler entry reaches `file`, computed without any memo. */
  ghost function ChainsReaching(es: Edges, file: File, chains: seq<CommandChain>): seq<CommandChain> {
    if chains == [] then []
    else
      ChainsReaching(es, file, chains[..|chains| - 1]) +
      (if Reach(es, chains[|chains| - 1].entry, file) then [chains[|chains| - 1]] else [])
  }

  class ClosureMemo {
    const successors: map<File, seq<File>>
    ghost const es: Edges
    var closures: map<File, set<File>>

    /** Every remembered closure is the one a fresh search would compute. */
    ghost predicate Valid()
      reads this
    {
      && Represents(successors, es)
      && forall entry, v :: entry in closures ==> (v in closures[entry] <==> Reach(es, entry, v))
    }

    constructor (successors: map<File, seq<File>>, ghost es: Edges)
      requires Represents(successors, es)
      ensures Valid() && this.es == es
    {
      this.successors, this.es, closures := successors, es, map[];
    }

    method ClosureFor(entry: File) returns (closure: set<File>)
      requires Valid()
      modifies this
      ensures Valid() && forall v :: v in closure <==> Reach(es, entry, v)
    {
      hide Reach;
      if entry in closures {
        return closures[entry];
      }
      EndpointsCover(es);
      closure := Reachable(entry, successors, es, Endpoints(es) + {entry});
      closure := closure + {entry};
      ReachSelf(es, entry);
      closures := closures[entry := closure];
    }
  }

  function ByCommand(le: (string, string) -> bool): (order: (CommandChain, CommandChain) -> bool)
    requires TotalPreorder(le)
    ensures TotalPreorder(order)
  {
    var order := (x: CommandChain, y: CommandChain) => le(x.command, y.command);
    assert forall x, y :: order(x, y) == le(x.command, y.command);
    order
  }

  /** `commandsReaching`: the memoised filter gives what an unmemoised one would, sorted by command. */
  method CommandsReaching(file: File, chains: seq<CommandChain>, edges: seq<GraphEdge>,
                          le: (string, string) -> bool) returns (r: seq<CommandChain>)
    requires TotalPreorder(le)
    ensures r == Sort(ChainsReaching(ExecutablePairs(edges), file, chains), ByCommand(le))
    ensures forall c :: c in r <==> c in chains && Reach(ExecutablePairs(edges), c.entry, file)
    ensures forall i, j :: 0 <= i < j < |r| ==> le(r[i].command, r[j].command)
  {
    hide Reach, TotalPreorder, ByCommand;
    var successors := ExecutableSuccessors(edges);
    var memo := new ClosureMemo(successors, ExecutablePairs(edges));
    var kept := [];
    for i := 0 to |chains|
      invariant fresh(memo) && memo.Valid() && memo.es == ExecutablePairs(edges)
      invariant kept == ChainsReaching(ExecutablePairs(edges), file, chains[..i])
    {
      assert chains[..i + 1][..i] == chains[..i];
      var closure := memo.ClosureFor(chains[i].entry);
      if file in closure {
        kept := kept + [chains[i]];
      }
    }
    assert chains[..|chains|] == chains;
    r := Sort(kept, ByCommand(le));
    ReachingChains(ExecutablePairs(edges), file, chains);
    SamePermutation(kept, r);
    CommandsInOrder(r, le);
  }

  lemma {:induction false} ReachingChains(es: Edges, file: File, chains: seq<CommandChain>)
    ensures forall c :: c in ChainsReaching(es, file, chains) <==> c in chains && Reach(es, c.entry, file)
  {
    hide Reach;
    if chains != [] {
      var n := |chains| - 1;
      ReachingChains(es, file, chains[..n]);
      assert chains == chains[..n] + [chains[n]];
    }
  }

  lemma CommandsInOrder(r: seq<CommandChain>, le: (string, string) -> bool)
    requires TotalPreorder(le) && Sorted(r, ByCommand(le))
    ensures forall i, j :: 0 <= i < j < |r| ==> le(r[i].command, r[j].command)
  {
    forall i, j | 0 <= i < j < |r|
      ensures le(r[i].command, r[j].command)
    {
      assert ByCommand(le)(r[i], r[j]);
    }
  }
}
