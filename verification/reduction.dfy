/**
 What the "transitively reachable" mark means for the whole graph: on an acyclic graph the edges
 left unmarked are the unique smallest edge set with the same reachability.
 */
module Reduction {
  import opened Digraph
  import opened Searches

  ghost predicate Redundant(es: Edges, e: (File, File)) {
    ReachPlus(Without(es, e.0, e.1), e.0, e.1)
  }

  ghost function Unmarked(es: Edges): Edges {
    set e | e in es && !Redundant(es, e)
  }

  /** The files on some walk from `a` to `b`: the measure along which long edges are replaced. */
  ghost function Between(es: Edges, a: File, b: File): set<File> {
    set v | v in Endpoints(es) && Reach(es, a, v) && Reach(es, v, b)
  }

  lemma SelfReachIsCycle(es: Edges, a: File, b: File)
    requires Acyclic(es) && Reach(es, a, b) && Reach(es, b, a)
    ensures a == b
  {
    ReachSplit(es, a, b);
    if a != b {
      var m :| (a, m) in es && Reach(es, m, b);
      ReachTrans(es, m, b, a);
      assert OnCycle(es, a);
    }
  }

  /** Splitting a walk at a middle file leaves two shorter problems. */
  lemma BetweenShrinks(es: Edges, a: File, m: File, b: File)
    requires Acyclic(es) && Reach(es, a, m) && Reach(es, m, b) && m != a && m != b
    ensures Between(es, a, m) < Between(es, a, b)
    ensures Between(es, m, b) < Between(es, a, b)
  {
    ReachSelf(es, a);
    ReachSelf(es, b);
    ReachTrans(es, a, m, b);
    ReachSplit(es, a, m);
    ReachPlusLast(es, m, b) by {
      ReachSplit(es, m, b);
    }
    assert a in Between(es, a, b) && b in Between(es, a, b);
    forall v | v in Between(es, a, m)
      ensures v in Between(es, a, b) && v != b
    {
      ReachTrans(es, v, m, b);
      if v == b { SelfReachIsCycle(es, m, b); }
    }
    forall v | v in Between(es, m, b)
      ensures v in Between(es, a, b) && v != a
    {
      ReachTrans(es, a, m, v);
      if v == a { SelfReachIsCycle(es, a, m); }
    }
  }

  /** Dropping every marked edge at once loses no reachability. */
  lemma {:induction false} UnmarkedReach(es: Edges, a: File, b: File)
    requires Acyclic(es) && Reach(es, a, b)
    ensures Reach(Unmarked(es), a, b)
    decreases Between(es, a, b)
  {
    if a == b {
      ReachSelf(Unmarked(es), a);
      return;
    }
    ReachSplit(es, a, b);
    var m :| (a, m) in es && Reach(es, m, b);
    if m == b {
      if (a, b) in Unmarked(es) {
        ReachEdge(Unmarked(es), a, b);
        return;
      }
      m :| (a, m) in Without(es, a, b) && Reach(Without(es, a, b), m, b);
      ReachMonotone(Without(es, a, b), es, m, b);
    }
    ReachEdge(es, a, m);
    if m == a {
      assert OnCycle(es, a) by { ReachSelf(es, a); }
    }
    BetweenShrinks(es, a, m, b);
    UnmarkedReach(es, a, m);
    UnmarkedReach(es, m, b);
    ReachTrans(Unmarked(es), a, m, b);
  }

  lemma BypassedIsRedundant(es: Edges, kept: Edges, e: (File, File))
    requires Acyclic(es) && kept <= es && e in es && e !in kept && Reach(kept, e.0, e.1)
    ensures Redundant(es, e)
  {
    ReachSelf(es, e.0);
    assert (e.0, e.0) in es ==> OnCycle(es, e.0);
    ReachSplit(kept, e.0, e.1);
    var m :| (e.0, m) in kept && Reach(kept, m, e.1);
    ReachMonotone(kept, Without(es, e.0, e.1), m, e.1);
  }

  /** Any part of the graph that keeps all reachability contains every unmarked edge. */
  lemma UnmarkedIsForced(es: Edges, kept: Edges, e: (File, File))
    requires Acyclic(es) && kept <= es && e in Unmarked(es)
    requires Reach(kept, e.0, e.1)
    ensures e in kept
  {
    if e !in kept {
      BypassedIsRedundant(es, kept, e);
    }
  }

  ghost predicate SameReach(es: Edges, fs: Edges) {
    forall a, b :: Reach(es, a, b) <==> Reach(fs, a, b)
  }

  /** The unmarked edges are the transitive reduction: same reachability, and the least such subset. */
  lemma TransitiveReduction(es: Edges)
    requires Acyclic(es)
    ensures SameReach(es, Unmarked(es))
    ensures forall kept :: kept <= es && SameReach(es, kept) ==> Unmarked(es) <= kept
  {
    forall a, b
      ensures Reach(es, a, b) <==> Reach(Unmarked(es), a, b)
    {
      if Reach(es, a, b) {
        UnmarkedReach(es, a, b);
      } else if Reach(Unmarked(es), a, b) {
        ReachMonotone(Unmarked(es), es, a, b);
      }
    }
    forall kept, e | kept <= es && SameReach(es, kept) && e in Unmarked(es)
      ensures e in kept
    {
      ReachEdge(es, e.0, e.1);
      UnmarkedIsForced(es, kept, e);
    }
  }
}
