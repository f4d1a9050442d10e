/**
 Cycle extraction: the depth-first search that turns a component into one printable cycle
 (`findCyclePath` in scripts/layering/model.ts), including the throw its author marks as impossible.
 */
module CyclePaths {
  import opened Digraph
  import opened Sequences
  import opened Wrappers

  /** The edges of the graph that stay within a component. */
  function Inside(es: Edges, members: set<File>): Edges {
    set e | e in es && e.0 in members && e.1 in members
  }

  /** A closed walk that repeats no file except its first at its end. */
  ghost predicate IsCyclePath(es: Edges, p: seq<File>) {
    |p| >= 2 && IsWalk(es, p) && p[0] == p[|p| - 1] && Distinct(p[..|p| - 1])
  }

  /** Each file's edges lead to files that come earlier: the order in which a search abandons files. */
  ghost predicate Abandoned(es: Edges, order: seq<File>) {
    forall i, w :: 0 <= i < |order| && (order[i], w) in es ==> w in order[..i]
  }

  lemma {:induction false} AbandonedDescends(es: Edges, order: seq<File>, p: seq<File>, i: nat)
    requires Abandoned(es, order) && IsWalk(es, p) && |p| >= 2
    requires i < |order| && order[i] == p[0]
    ensures p[|p| - 1] in order[..i]
  {
    assert (p[0], p[1]) in es;
    var j :| 0 <= j < i && order[j] == p[1];
    if |p| > 2 {
      assert IsWalk(es, p[1..]) by {
        forall k | 0 <= k < |p| - 2
          ensures (p[1..][k], p[1..][k + 1]) in es
        {
          assert (p[k + 1], p[k + 2]) in es;
        }
      }
      AbandonedDescends(es, order, p[1..], j);
    }
  }

  /** A graph all of whose edges start in a duplicate-free abandoned order has no cycle. */
  lemma AbandonedIsAcyclic(es: Edges, order: seq<File>)
    requires Abandoned(es, order) && Distinct(order)
    requires forall a, b :: (a, b) in es ==> a in order
    ensures Acyclic(es)
  {
    forall a
      ensures !OnCycle(es, a)
    {
      if OnCycle(es, a) {
        var m :| (a, m) in es && Reach(es, m, a);
        var p :| WalkFromTo(es, p, m, a);
        var i :| 0 <= i < |order| && order[i] == a;
        var q := [a] + p;
        forall k | 0 <= k < |q| - 1
          ensures (q[k], q[k + 1]) in es
        {
          if k > 0 {
            assert (p[k - 1], p[k]) in es;
          }
        }
        AbandonedDescends(es, order, q, i);
      }
    }
  }

  lemma CyclePathIsCycle(es: Edges, p: seq<File>)
    requires IsCyclePath(es, p)
    ensures forall v :: v in p ==> OnCycle(es, v)
  {
    forall v | v in p
      ensures OnCycle(es, v)
    {
      var k :| 0 <= k < |p| && p[k] == v;
      var last := |p| - 1;
      assert (p[0], p[1]) in es;
      WalkSegment(es, p, 0, k);
      WalkSegment(es, p, k, last);
      if k == 0 {
        WalkSegment(es, p, 1, last);
      } else {
        ReachSplit(es, p[k], p[last]);
        WalkSegment(es, p, 1, k);
        if k == last {
          assert ReachPlus(es, p[0], p[k]);
        } else {
          WalkSegment(es, p, k + 1, last);
          ReachTrans(es, p[k + 1], p[last], p[k]);
          assert (p[k], p[k + 1]) in es;
        }
      }
    }
  }

  lemma CyclePathIsCyclic(es: Edges, p: seq<File>)
    requires IsCyclePath(es, p)
    ensures !Acyclic(es)
  {
    CyclePathIsCycle(es, p);
    assert OnCycle(es, p[0]);
  }

  lemma WalkSegment(es: Edges, p: seq<File>, i: nat, j: nat)
    requires IsWalk(es, p) && i <= j < |p|
    ensures Reach(es, p[i], p[j])
  {
    var q := p[i..j + 1];
    forall k | 0 <= k < |q| - 1
      ensures (q[k], q[k + 1]) in es
    {
      assert (p[i + k], p[i + k + 1]) in es;
    }
    assert WalkFromTo(es, q, p[i], p[j]);
  }

  /** A component that lies on a cycle contains one: the walk back never leaves the component. */
  lemma ComponentKeepsCycles(es: Edges, c: set<File>, x: File)
    requires IsComponent(es, c) && x in c && OnCycle(es, x)
    ensures OnCycle(Inside(es, c), x)
  {
    var m :| (x, m) in es && Reach(es, m, x);
    var p :| WalkFromTo(es, p, m, x);
    ReachEdge(es, x, m);
    forall k | 0 <= k < |p|
      ensures p[k] in c
    {
      WalkSegment(es, p, 0, k);
      WalkSegment(es, p, k, |p| - 1);
      ReachTrans(es, x, m, p[k]);
      assert Mutual(es, x, p[k]);
    }
    forall k | 0 <= k < |p| - 1
      ensures (p[k], p[k + 1]) in Inside(es, c)
    {
      assert (p[k], p[k + 1]) in es;
    }
    assert WalkFromTo(Inside(es, c), p, m, x);
    assert (x, m) in Inside(es, c) by {
      assert m == p[0];
    }
  }

  /** The search state: the stack is a walk, and every visited file is on it or abandoned in order. */
  ghost predicate Searching(es: Edges, members: set<File>, visited: set<File>, stack: seq<File>, abandoned: seq<File>) {
    && Distinct(stack) && Distinct(abandoned)
    && (forall v :: v in visited <==> v in stack || v in abandoned)
    && (forall v :: v in abandoned ==> v !in stack)
    && (forall v :: v in visited ==> v in members)
    && (forall i :: 0 <= i < |stack| - 1 ==> (stack[i], stack[i + 1]) in es)
    && Abandoned(es, abandoned)
  }

  lemma EnterKeeps(es: Edges, members: set<File>, visited: set<File>, stack: seq<File>, abandoned: seq<File>, v: File)
    requires Searching(es, members, visited, stack, abandoned)
    requires v in members && v !in visited && (stack != [] ==> (stack[|stack| - 1], v) in es)
    ensures Searching(es, members, visited + {v}, stack + [v], abandoned)
  {
  }

  lemma LeaveKeeps(es: Edges, members: set<File>, visited: set<File>, stack: seq<File>, abandoned: seq<File>, v: File)
    requires Searching(es, members, visited, stack + [v], abandoned)
    requires forall w :: (v, w) in es ==> w in abandoned
    ensures Searching(es, members, visited, stack, abandoned + [v])
  {
    var s, order := stack + [v], abandoned + [v];
    assert s[|stack|] == v && v in s;
    assert forall i :: 0 <= i < |stack| ==> s[i] == stack[i] && s[i] != s[|stack|];
    assert Abandoned(es, order) by {
      forall i, w | 0 <= i < |order| && (order[i], w) in es
        ensures w in order[..i]
      {
        assert order[..|abandoned|] == abandoned;
        if i < |abandoned| {
          assert order[..i] == abandoned[..i];
        }
      }
    }
  }

  lemma CloseCycle(es: Edges, members: set<File>, visited: set<File>, stack: seq<File>, abandoned: seq<File>,
                   target: File)
    requires Searching(es, members, visited, stack, abandoned)
    requires target in stack && (stack[|stack| - 1], target) in es
    ensures IsCyclePath(es, stack[IndexOf(stack, target)..] + [target])
  {
    hide Abandoned, IndexOf;
    var k := IndexOf(stack, target);
    var p := stack[k..] + [target];
    assert p[..|p| - 1] == stack[k..];
    forall i | 0 <= i < |p| - 1
      ensures (p[i], p[i + 1]) in es
    {
      assert p[i] == stack[k + i];
    }
  }

  // ---- the search as a function: which path it settles on ----

  /** A search ends with a path, or has visited more files in vain. */
  datatype Outcome = Found(path: seq<File>) | InVain(visited: set<File>)

  function IndexOf(s: seq<File>, x: File): (i: nat)
    requires x in s
    ensures i < |s| && s[i] == x && forall j :: 0 <= j < i ==> s[j] != x
  {
    if s[0] == x then 0 else 1 + IndexOf(s[1..], x)
  }

  function SearchFrom(graph: map<File, seq<File>>, members: set<File>, visited: set<File>, stack: seq<File>,
                      file: File): (r: Outcome)
    requires file in members && file !in visited
    ensures r.InVain? ==> visited <= r.visited && file in r.visited
    decreases members - visited, 0, 0
  {
    SearchTargets(graph, members, visited + {file}, stack + [file], Succ(graph, file))
  }

  function SearchTargets(graph: map<File, seq<File>>, members: set<File>, visited: set<File>, stack: seq<File>,
                         targets: seq<File>): (r: Outcome)
    ensures r.InVain? ==> visited <= r.visited
    decreases members - visited, 1, |targets|
  {
    if targets == [] then InVain(visited)
    else
      var t := targets[0];
      if t in members && t in stack then Found(stack[IndexOf(stack, t)..] + [t])
      else if t in members && t !in visited then
        match SearchFrom(graph, members, visited, stack, t)
        case Found(path) => Found(path)
        case InVain(more) => SearchTargets(graph, members, more, stack, targets[1..])
      else SearchTargets(graph, members, visited, stack, targets[1..])
  }

  function SearchRoots(graph: map<File, seq<File>>, members: set<File>, visited: set<File>,
                       roots: seq<File>): Option<seq<File>>
    decreases |roots|
  {
    if roots == [] then None
    else if roots[0] in visited || roots[0] !in members then SearchRoots(graph, members, visited, roots[1..])
    else
      match SearchFrom(graph, members, visited, [], roots[0])
      case Found(path) => Some(path)
      case InVain(more) => SearchRoots(graph, members, more, roots[1..])
  }

  /** The outcome a run of the search stands for. */
  function OutcomeOf(path: Option<seq<File>>, visited: set<File>): Outcome {
    match path
    case Some(p) => Found(p)
    case None => InVain(visited)
  }

  lemma SearchOpens(graph: map<File, seq<File>>, members: set<File>, visited: set<File>, stack: seq<File>, file: File)
    requires file in members && file !in visited
    ensures SearchFrom(graph, members, visited, stack, file) ==
            SearchTargets(graph, members, visited + {file}, stack + [file], Succ(graph, file)[0..])
  {
    assert Succ(graph, file)[0..] == Succ(graph, file);
  }

  /** What one target adds to the search. */
  lemma SearchTarget(graph: map<File, seq<File>>, members: set<File>, visited: set<File>, stack: seq<File>,
                     targets: seq<File>, i: nat)
    requires i < |targets|
    ensures var t := targets[i];
      SearchTargets(graph, members, visited, stack, targets[i..]) ==
        if t in members && t in stack then Found(stack[IndexOf(stack, t)..] + [t])
        else if t in members && t !in visited then
          match SearchFrom(graph, members, visited, stack, t)
          case Found(path) => Found(path)
          case InVain(more) => SearchTargets(graph, members, more, stack, targets[i + 1..])
        else SearchTargets(graph, members, visited, stack, targets[i + 1..])
  {
    assert targets[i..][1..] == targets[i + 1..];
  }

  lemma SearchExhausted(graph: map<File, seq<File>>, members: set<File>, visited: set<File>, stack: seq<File>,
                        targets: seq<File>)
    ensures SearchTargets(graph, members, visited, stack, targets[|targets|..]) == InVain(visited)
  {
  }

  // ---- what the search settles on is a cycle, and it settles on one whenever there is one ----

  /** `es` is what the adjacency lists say about the members. */
  ghost predicate ShowsInside(graph: map<File, seq<File>>, members: set<File>, es: Edges) {
    forall a, b :: (a, b) in es <==> a in members && b in members && b in Succ(graph, a)
  }

  /** A found path is a simple closed walk; in vain, every visited file off the stack has been abandoned in order. */
  ghost predicate Sound(r: Outcome, es: Edges, members: set<File>, stack: seq<File>, before: seq<File>,
                        after: seq<File>) {
    match r
    case Found(path) => IsCyclePath(es, path)
    case InVain(visited) => Searching(es, members, visited, stack, after) && forall v :: v in before ==> v in after
  }

  lemma {:induction false} SearchFromSound(graph: map<File, seq<File>>, members: set<File>, es: Edges,
                                           visited: set<File>, stack: seq<File>, abandoned: seq<File>, file: File)
      returns (after: seq<File>)
    requires ShowsInside(graph, members, es) && Searching(es, members, visited, stack, abandoned)
    requires file in members && file !in visited && (stack != [] ==> (stack[|stack| - 1], file) in es)
    ensures var r := SearchFrom(graph, members, visited, stack, file);
      Sound(r, es, members, stack, abandoned, after) && (r.InVain? ==> file in after)
    decreases members - visited, 0, 0
  {
    hide Searching, IsCyclePath;
    EnterKeeps(es, members, visited, stack, abandoned, file);
    after := SearchTargetsSound(graph, members, es, visited + {file}, stack + [file], abandoned, Succ(graph, file));
    var r := SearchFrom(graph, members, visited, stack, file);
    if r.InVain? {
      LeaveKeeps(es, members, r.visited, stack, after, file);
      after := after + [file];
    }
  }

  lemma {:induction false} SearchTargetsSound(graph: map<File, seq<File>>, members: set<File>, es: Edges,
                                              visited: set<File>, stack: seq<File>, abandoned: seq<File>,
                                              targets: seq<File>)
      returns (after: seq<File>)
    requires ShowsInside(graph, members, es) && Searching(es, members, visited, stack, abandoned) && stack != []
    requires forall t :: t in targets && t in members ==> (stack[|stack| - 1], t) in es
    ensures var r := SearchTargets(graph, members, visited, stack, targets);
      && Sound(r, es, members, stack, abandoned, after)
      && (r.InVain? ==> forall t :: t in targets && t in members ==> t in after)
    decreases members - visited, 1, |targets|
  {
    hide Searching, IsCyclePath, IndexOf;
    after := abandoned;
    if targets != [] {
      var t := targets[0];
      if t in members && t in stack {
        CloseCycle(es, members, visited, stack, abandoned, t);
      } else {
        var seen, left := visited, abandoned;
        if t in members && t !in visited {
          left := SearchFromSound(graph, members, es, visited, stack, abandoned, t);
          var r := SearchFrom(graph, members, visited, stack, t);
          if r.Found? {
            return;
          }
          seen := r.visited;
        } else if t in members {
          VisitedIsAbandoned(es, members, visited, stack, abandoned, t);
        }
        after := SearchTargetsSound(graph, members, es, seen, stack, left, targets[1..]);
      }
    }
  }

  lemma VisitedIsAbandoned(es: Edges, members: set<File>, visited: set<File>, stack: seq<File>, abandoned: seq<File>,
                           v: File)
    requires Searching(es, members, visited, stack, abandoned) && v !in stack
    ensures v in visited <==> v in abandoned
  {
  }

  lemma {:induction false} SearchRootsSound(graph: map<File, seq<File>>, members: set<File>, es: Edges,
                                            visited: set<File>, abandoned: seq<File>, roots: seq<File>)
      returns (after: seq<File>)
    requires ShowsInside(graph, members, es) && Searching(es, members, visited, [], abandoned)
    ensures var r := SearchRoots(graph, members, visited, roots);
      && (r.Some? ==> IsCyclePath(es, r.value))
      && (r.None? ==> Distinct(after) && Abandoned(es, after) && forall v :: v in abandoned ==> v in after)
      && (r.None? ==> forall v :: v in roots && v in members ==> v in after)
    decreases |roots|
  {
    hide SearchFrom, IsCyclePath;
    after := abandoned;
    if roots != [] {
      var seen, left := visited, abandoned;
      if roots[0] !in visited && roots[0] in members {
        left := SearchFromSound(graph, members, es, visited, [], abandoned, roots[0]);
        var r := SearchFrom(graph, members, visited, [], roots[0]);
        if r.Found? {
          return;
        }
        seen := r.visited;
      }
      after := SearchRootsSound(graph, members, es, seen, left, roots[1..]);
    }
  }

  /** The search settles on a simple cycle of the members' own edges, unless those edges form none. */
  lemma SearchDecides(graph: map<File, seq<File>>, members: set<File>, es: Edges, roots: seq<File>)
    requires ShowsInside(graph, members, es) && members <= Elements(roots)
    ensures var r := SearchRoots(graph, members, {}, roots);
      && (r.Some? ==> IsCyclePath(es, r.value))
      && (r.None? <==> Acyclic(es))
  {
    hide IsCyclePath, Acyclic, SearchRoots;
    var after := SearchRootsSound(graph, members, es, {}, [], roots);
    var r := SearchRoots(graph, members, {}, roots);
    if r.Some? {
      CyclePathIsCyclic(es, r.value);
    } else {
      assert forall v :: v in members ==> v in Elements(roots);
      AbandonedIsAcyclic(es, after);
    }
  }

  /** `active.get`: where on the stack a file lies. */
  ghost predicate Indexes(active: map<File, nat>, stack: seq<File>) {
    && (forall v :: v in active <==> v in stack)
    && (forall i :: 0 <= i < |stack| ==> stack[i] in active && active[stack[i]] == i)
  }

  lemma ActiveIsIndex(active: map<File, nat>, stack: seq<File>, v: File)
    requires Indexes(active, stack)
    ensures if v in active then v in stack && active[v] == IndexOf(stack, v) else v !in stack
    ensures v !in stack ==> Indexes(active[v := |stack|], stack + [v]) && active[v := |stack|] - {v} == active
  {
    if v !in stack {
      assert v !in active;
    }
  }

  class PathSearch {
    const graph: map<File, seq<File>>
    const members: set<File>
    var visited: set<File>
    var active: map<File, nat>
    var stack: seq<File>

    ghost predicate Valid()
      reads this
    {
      Indexes(active, stack) && forall v :: v in stack ==> v in visited
    }

    constructor (graph: map<File, seq<File>>, members: set<File>)
      ensures Valid() && this.graph == graph && this.members == members
      ensures visited == {} && stack == []
    {
      this.graph, this.members := graph, members;
      visited, active, stack := {}, map[], [];
    }

    method Visit(file: File) returns (path: Option<seq<File>>)
      requires Valid() && file in members && file !in visited
      modifies this
      ensures path.None? ==> Valid() && stack == old(stack) && active == old(active)
      ensures SearchFrom(graph, members, old(visited), old(stack), file) == OutcomeOf(path, visited)
      decreases members - visited
    {
      hide Indexes, SearchFrom, SearchTargets, IndexOf;
      ActiveIsIndex(active, stack, file);
      visited := visited + {file};
      active := active[file := |stack|];
      stack := stack + [file];
      var targets := Succ(graph, file);
      ghost var open, at := stack, active;
      SearchOpens(graph, members, old(visited), old(stack), file);
      for i := 0 to |targets|
        invariant Valid() && stack == open && active == at && old(visited) + {file} <= visited
        invariant SearchFrom(graph, members, old(visited), old(stack), file)
               == SearchTargets(graph, members, visited, stack, targets[i..])
      {
        var target := targets[i];
        SearchTarget(graph, members, visited, stack, targets, i);
        ActiveIsIndex(active, stack, target);
        if target in members {
          if target in active {
            return Some(stack[active[target]..] + [target]);
          }
          if target !in visited {
            path := Visit(target);
            if path.Some? {
              return;
            }
          }
        }
      }
      SearchExhausted(graph, members, visited, stack, targets);
      stack := stack[..|stack| - 1];
      active := active - {file};
      path := None;
    }

    /** The root loop. */
    method VisitAll(roots: seq<File>) returns (path: Option<seq<File>>)
      requires Valid() && stack == [] && visited == {} && Elements(roots) == members
      modifies this
      ensures path == SearchRoots(graph, members, {}, roots)
    {
      hide Indexes, SearchFrom;
      for i := 0 to |roots|
        invariant Valid() && stack == []
        invariant SearchRoots(graph, members, {}, roots) == SearchRoots(graph, members, visited, roots[i..])
      {
        assert roots[i] in Elements(roots) && roots[i..][1..] == roots[i + 1..];
        if roots[i] !in visited {
          path := Visit(roots[i]);
          if path.Some? {
            return;
          }
        }
      }
      path := None;
    }
  }

  /**
   Turns a component into one cycle. `None` stands for the throw: it happens exactly when the
   edges inside the component form no cycle, whatever order the component is searched in.
   */
  method FindCyclePath(component: seq<File>, graph: map<File, seq<File>>, ghost es: Edges, name: (File, File) -> bool)
      returns (path: Option<seq<File>>)
    requires Represents(graph, es) && TotalPreorder(name)
    ensures path.Some? ==> IsCyclePath(Inside(es, Elements(component)), path.value)
    ensures path.None? <==> Acyclic(Inside(es, Elements(component)))
    ensures path == SearchRoots(graph, Elements(component), {}, Sort(component, name))
  {
    hide IsCyclePath, Acyclic, SearchRoots;
    var members := Elements(component);
    var search := new PathSearch(graph, members);
    var roots := Sort(component, name);
    SamePermutation(component, roots);
    path := search.VisitAll(roots);
    SearchDecides(graph, members, Inside(es, members), roots);
  }
}
