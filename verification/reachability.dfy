/**
 The breadth-first searches of scripts/depgraph: the closure behind the blast-radius report and the
 search that asks whether an edge's target is reachable some other way.
 */
module Searches {
  import opened Digraph
  import opened Sequences

  ghost function Without(es: Edges, a: File, b: File): Edges {
    es - {(a, b)}
  }

  /** A nonempty walk ends with an edge. */
  lemma ReachPlusLast(es: Edges, a: File, b: File)
    requires ReachPlus(es, a, b)
    ensures exists x :: Reach(es, a, x) && (x, b) in es
  {
    var m :| (a, m) in es && Reach(es, m, b);
    var p :| WalkFromTo(es, p, m, b);
    if |p| == 1 {
      ReachSelf(es, a);
    } else {
      var n := |p| - 2;
      assert (p[n], p[n + 1]) in es;
      var q := [a] + p[..n + 1];
      forall k | 0 <= k < |q| - 1
        ensures (q[k], q[k + 1]) in es
      {
        if k > 0 {
          assert (p[k - 1], p[k]) in es;
        }
      }
      assert WalkFromTo(es, q, a, p[n]);
    }
  }

  /** Every edge of `x` leads to a seen file. */
  ghost predicate LeadsInto(es: Edges, x: File, seen: set<File>) {
    forall w :: (x, w) in es ==> w in seen
  }

  /** The search state: everything seen is reachable, and the files already handled lead only to seen files. */
  ghost predicate Searched(es: Edges, start: File, seen: set<File>, queue: seq<File>, handled: nat) {
    && handled <= |queue|
    && start in seen
    && (forall v :: v in queue ==> v in seen)
    && (forall v :: v in seen ==> v in queue && Reach(es, start, v))
    && (forall k :: 0 <= k < handled ==> LeadsInto(es, queue[k], seen))
  }

  lemma SearchComplete(es: Edges, start: File, seen: set<File>, queue: seq<File>)
    requires Searched(es, start, seen, queue, |queue|)
    ensures forall v :: v in seen <==> Reach(es, start, v)
  {
    forall a, b | (a, b) in es && a in seen
      ensures b in seen
    {
      var k :| 0 <= k < |queue| && queue[k] == a;
    }
    forall v | Reach(es, start, v)
      ensures v in seen
    {
      ClosedStays(es, seen, start, v);
    }
  }

  lemma SearchGrows(es: Edges, start: File, seen: set<File>, queue: seq<File>, index: nat, next: File)
    requires Searched(es, start, seen, queue, index)
    requires index < |queue| && (queue[index], next) in es && next !in seen
    ensures Searched(es, start, seen + {next}, queue + [next], index)
  {
    ReachThenEdge(es, start, queue[index], next);
    ReachPlusIsReach(es, start, next);
    var more := queue + [next];
    forall k | 0 <= k < index
      ensures LeadsInto(es, more[k], seen + {next})
    {
      assert LeadsInto(es, queue[k], seen);
    }
  }

  lemma SearchAdvances(es: Edges, start: File, seen: set<File>, queue: seq<File>, index: nat)
    requires Searched(es, start, seen, queue, index) && index < |queue|
    requires LeadsInto(es, queue[index], seen)
    ensures Searched(es, start, seen, queue, index + 1)
  {
  }

  /** `reachable` in scripts/depgraph/affected.ts: everything reachable from `start` except `start` itself. */
  method Reachable(start: File, adjacency: map<File, seq<File>>, ghost es: Edges, ghost files: set<File>)
      returns (closure: set<File>)
    requires Represents(adjacency, es)
    requires start in files && forall a, b :: (a, b) in es ==> b in files
    ensures forall v :: v in closure <==> v != start && Reach(es, start, v)
  {
    hide Searched, Reach;
    var seen := {start};
    var queue := [start];
    SearchStarts(es, start);
    var index := 0;
    while index < |queue|
      invariant index <= |queue| && seen <= files
      invariant Searched(es, start, seen, queue, index)
      decreases files - seen, |queue| - index
    {
      var targets := Succ(adjacency, queue[index]);
      ghost var before, sofar := queue, seen;
      for i := 0 to |targets|
        invariant before <= queue && index < |before|
        invariant Searched(es, start, seen, queue, index)
        invariant sofar <= seen <= files && (seen == sofar ==> queue == before)
        invariant forall w :: w in targets[..i] ==> w in seen
      {
        var next := targets[i];
        assert targets[..i + 1] == targets[..i] + [next];
        assert (queue[index], next) in es;
        if next !in seen {
          SearchGrows(es, start, seen, queue, index, next);
          seen := seen + {next};
          queue := queue + [next];
        }
      }
      assert targets[..|targets|] == targets;
      SearchAdvances(es, start, seen, queue, index);
      index := index + 1;
    }
    SearchComplete(es, start, seen, queue);
    closure := seen - {start};
  }

  lemma SearchStarts(es: Edges, start: File)
    ensures Searched(es, start, {start}, [start], 0)
  {
    ReachSelf(es, start);
  }

  /** The targets of `s` other than `x`, in order. */
  function Others(s: seq<File>, x: File): (r: seq<File>)
    ensures forall v :: v in r <==> v in s && v != x
  {
    if s == [] then [] else (if s[0] == x then [] else [s[0]]) + Others(s[1..], x)
  }

  /** Everything queued is reachable without the direct edge, and no handled file leads to its target. */
  ghost predicate Bypassing(es: Edges, from: File, to: File, seen: set<File>, queue: seq<File>, handled: nat) {
    && handled <= |queue|
    && (forall v :: v in seen <==> v == from || v in queue)
    && (forall w :: (from, w) in es && w != to ==> w in queue)
    && (forall v :: v in queue ==> ReachPlus(Without(es, from, to), from, v))
    && (from in queue ==> (from, from) in es && from != to)
    && (forall k :: 0 <= k < handled ==> LeadsInto(es, queue[k], seen) && (queue[k], to) !in es)
  }

  /** A file that imports itself makes the search for any other target walk the direct edge after all. */
  ghost predicate SelfEdgeLeak(es: Edges, from: File, to: File) {
    from != to && (from, from) in es && (from, to) in es
  }

  /** Two edges are enough to make it happen: `from` imports itself and `to`, and has no other way there. */
  lemma SelfImportLooksRedundant(from: File, to: File)
    requires from != to
    ensures var es := {(from, from), (from, to)};
      SelfEdgeLeak(es, from, to) && !ReachPlus(Without(es, from, to), from, to)
  {
    var rest := Without({(from, from), (from, to)}, from, to);
    if ReachPlus(rest, from, to) {
      ReachPlusIsReach(rest, from, to);
      ClosedStays(rest, {from}, from, to);
    }
  }

  lemma BypassSeeds(es: Edges, from: File, to: File, queue: seq<File>)
    requires forall v :: v in queue <==> (from, v) in es && v != to
    ensures Bypassing(es, from, to, {from} + Elements(queue), queue, 0)
  {
    forall v | v in queue
      ensures ReachPlus(Without(es, from, to), from, v)
    {
      ReachSelf(Without(es, from, to), v);
      assert (from, v) in Without(es, from, to);
    }
  }

  lemma BypassGrows(es: Edges, from: File, to: File, seen: set<File>, queue: seq<File>, index: nat, next: File)
    requires Bypassing(es, from, to, seen, queue, index)
    requires index < |queue| && (queue[index], next) in es && next != to && next !in seen
    ensures Bypassing(es, from, to, seen + {next}, queue + [next], index)
  {
    BypassReaches(es, from, to, seen, queue, index, next);
    hide ReachPlus, Without;
    var more := queue + [next];
    forall k | 0 <= k < index
      ensures LeadsInto(es, more[k], seen + {next}) && (more[k], to) !in es
    {
      assert LeadsInto(es, queue[k], seen);
    }
  }

  lemma BypassReaches(es: Edges, from: File, to: File, seen: set<File>, queue: seq<File>, index: nat, next: File)
    requires Bypassing(es, from, to, seen, queue, index)
    requires index < |queue| && (queue[index], next) in es && next != to
    ensures ReachPlus(Without(es, from, to), from, next)
  {
    var es', x := Without(es, from, to), queue[index];
    if x == from {
      ReachSelf(es', next);
      assert (from, next) in es';
    } else {
      ReachPlusIsReach(es', from, x);
      ReachThenEdge(es', from, x, next);
    }
  }

  lemma BypassFound(es: Edges, from: File, to: File, seen: set<File>, queue: seq<File>, index: nat)
    requires Bypassing(es, from, to, seen, queue, index)
    requires index < |queue| && (queue[index], to) in es
    ensures ReachPlus(Without(es, from, to), from, to) || SelfEdgeLeak(es, from, to)
  {
    var x := queue[index];
    if x != from {
      ReachPlusIsReach(Without(es, from, to), from, x);
      ReachThenEdge(Without(es, from, to), from, x, to);
    }
  }

  lemma BypassMissing(es: Edges, from: File, to: File, seen: set<File>, queue: seq<File>)
    requires Bypassing(es, from, to, seen, queue, |queue|)
    ensures !ReachPlus(Without(es, from, to), from, to) && !SelfEdgeLeak(es, from, to)
  {
    var es' := Without(es, from, to);
    forall a, b | (a, b) in es' && a in seen
      ensures b in seen
    {
      if a in queue {
        var k :| 0 <= k < |queue| && queue[k] == a;
      }
    }
    if ReachPlus(es', from, to) {
      ReachPlusLast(es', from, to);
      var x :| Reach(es', from, x) && (x, to) in es';
      ClosedStays(es', seen, from, x);
    }
  }

  /**
   `reachableBeyondDirectEdge` in scripts/depgraph/model.ts. Without a self edge at `from` the answer
   is exactly reachability in the graph with the direct edge removed; with one it is yes for every other
   edge of `from`.
   */
  method ReachableBeyondDirectEdge(from: File, to: File, successors: map<File, seq<File>>,
                                   ghost es: Edges, ghost files: set<File>) returns (found: bool)
    requires Represents(successors, es)
    requires from in files && forall a, b :: (a, b) in es ==> b in files
    ensures found <==> ReachPlus(Without(es, from, to), from, to) || SelfEdgeLeak(es, from, to)
  {
    hide Bypassing, ReachPlus, Without, SelfEdgeLeak;
    var queue := Others(Succ(successors, from), to);
    var seen := {from} + Elements(queue);
    BypassSeeds(es, from, to, queue);
    var index := 0;
    while index < |queue|
      invariant index <= |queue| && seen <= files
      invariant Bypassing(es, from, to, seen, queue, index)
      decreases files - seen, |queue| - index
    {
      var targets := Succ(successors, queue[index]);
      ghost var before, sofar := queue, seen;
      for i := 0 to |targets|
        invariant before <= queue && index < |before|
        invariant Bypassing(es, from, to, seen, queue, index)
        invariant sofar <= seen <= files && (seen == sofar ==> queue == before)
        invariant forall w :: w in targets[..i] ==> w in seen && w != to
      {
        var next := targets[i];
        assert targets[..i + 1] == targets[..i] + [next];
        assert (queue[index], next) in es;
        if next == to {
          BypassFound(es, from, to, seen, queue, index);
          return true;
        }
        if next in seen {
          continue;
        }
        BypassGrows(es, from, to, seen, queue, index, next);
        seen := seen + {next};
        queue := queue + [next];
      }
      assert targets[..|targets|] == targets;
      BypassAdvances(es, from, to, seen, queue, index);
      index := index + 1;
    }
    BypassMissing(es, from, to, seen, queue);
    return false;
  }

  lemma BypassAdvances(es: Edges, from: File, to: File, seen: set<File>, queue: seq<File>, index: nat)
    requires Bypassing(es, from, to, seen, queue, index) && index < |queue|
    requires LeadsInto(es, queue[index], seen) && (queue[index], to) !in es
    ensures Bypassing(es, from, to, seen, queue, index + 1)
  {
  }
}
