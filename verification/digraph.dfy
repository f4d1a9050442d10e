/**
 Walks, reachability, strongly connected components and cycles over a finite edge
 relation. Every graph pass of the project is specified against these definitions,
 and none of them mentions an adjacency list, a queue or an index.
 */
module Digraph {

  /** A repository file, identified by its path. */
  datatype File = File(path: string)

  type Edges = set<(File, File)>

  /** A walk is a nonempty vertex sequence whose consecutive pairs are edges. */
  ghost predicate IsWalk(es: Edges, p: seq<File>) {
    |p| > 0 && forall i :: 0 <= i < |p| - 1 ==> (p[i], p[i + 1]) in es
  }

  ghost predicate WalkFromTo(es: Edges, p: seq<File>, a: File, b: File) {
    IsWalk(es, p) && p[0] == a && p[|p| - 1] == b
  }

  /** Reachability along zero or more edges. */
  ghost predicate Reach(es: Edges, a: File, b: File) {
    exists p :: WalkFromTo(es, p, a, b)
  }

  /** Reachability along one or more edges. */
  ghost predicate ReachPlus(es: Edges, a: File, b: File) {
    exists m :: (a, m) in es && Reach(es, m, b)
  }

  ghost predicate Mutual(es: Edges, a: File, b: File) {
    Reach(es, a, b) && Reach(es, b, a)
  }

  /** A strongly connected component: a whole class of mutually reachable vertices. */
  ghost predicate IsComponent(es: Edges, c: set<File>) {
    c != {} && forall x, y :: x in c ==> (y in c <==> Mutual(es, x, y))
  }

  ghost predicate OnCycle(es: Edges, a: File) {
    ReachPlus(es, a, a)
  }

  ghost predicate Acyclic(es: Edges) {
    forall a :: !OnCycle(es, a)
  }

  ghost predicate Closed(es: Edges, s: set<File>) {
    forall a, b :: (a, b) in es && a in s ==> b in s
  }

  /** Adjacency list lookup, with the empty list for a missing key. */
  function Succ(g: map<File, seq<File>>, v: File): seq<File> {
    if v in g then g[v] else []
  }

  ghost predicate Represents(g: map<File, seq<File>>, es: Edges) {
    forall a, b :: (a, b) in es <==> b in Succ(g, a)
  }

  ghost function Endpoints(es: Edges): set<File> {
    (set e | e in es :: e.0) + (set e | e in es :: e.1)
  }

  lemma EndpointsCover(es: Edges)
    ensures forall a, b :: (a, b) in es ==> a in Endpoints(es) && b in Endpoints(es)
  {
  }

  // ---- reachability ----

  lemma ReachSelf(es: Edges, a: File)
    ensures Reach(es, a, a)
  {
    assert WalkFromTo(es, [a], a, a);
  }

  lemma ReachEdge(es: Edges, a: File, b: File)
    requires (a, b) in es
    ensures Reach(es, a, b)
  {
    assert WalkFromTo(es, [a, b], a, b);
  }

  lemma JoinWalks(es: Edges, p: seq<File>, q: seq<File>, a: File, b: File, c: File)
    requires WalkFromTo(es, p, a, b) && WalkFromTo(es, q, b, c)
    ensures WalkFromTo(es, p + q[1..], a, c)
  {
  }

  lemma ReachTrans(es: Edges, a: File, b: File, c: File)
    requires Reach(es, a, b) && Reach(es, b, c)
    ensures Reach(es, a, c)
  {
    var p :| WalkFromTo(es, p, a, b);
    var q :| WalkFromTo(es, q, b, c);
    JoinWalks(es, p, q, a, b, c);
  }

  /** A walk cannot leave a set that is closed under the edges. */
  lemma {:induction false} ClosedStays(es: Edges, s: set<File>, a: File, b: File)
    requires Closed(es, s) && a in s && Reach(es, a, b)
    ensures b in s
  {
    var p :| WalkFromTo(es, p, a, b);
    var i := 0;
    while i < |p| - 1
      invariant 0 <= i < |p| && p[i] in s
    {
      assert (p[i], p[i + 1]) in es;
      i := i + 1;
    }
  }

  /** A walk either is one vertex or starts with an edge. */
  lemma ReachSplit(es: Edges, a: File, b: File)
    requires Reach(es, a, b)
    ensures a == b || ReachPlus(es, a, b)
  {
    var p :| WalkFromTo(es, p, a, b);
    if |p| > 1 {
      assert (p[0], p[1]) in es;
      assert WalkFromTo(es, p[1..], p[1], b) by {
        forall i | 0 <= i < |p[1..]| - 1
          ensures (p[1..][i], p[1..][i + 1]) in es
        {
          assert (p[i + 1], p[i + 2]) in es;
        }
      }
    }
  }

  lemma ReachPlusIsReach(es: Edges, a: File, b: File)
    requires ReachPlus(es, a, b)
    ensures Reach(es, a, b)
  {
    var m :| (a, m) in es && Reach(es, m, b);
    ReachEdge(es, a, m);
    ReachTrans(es, a, m, b);
  }

  lemma ReachThenEdge(es: Edges, a: File, b: File, c: File)
    requires Reach(es, a, b) && (b, c) in es
    ensures ReachPlus(es, a, c)
  {
    ReachSplit(es, a, b);
    if a == b {
      ReachSelf(es, c);
    } else {
      var m :| (a, m) in es && Reach(es, m, b);
      ReachEdge(es, b, c);
      ReachTrans(es, m, b, c);
    }
  }

  lemma ReachMonotone(small: Edges, large: Edges, a: File, b: File)
    requires small <= large && Reach(small, a, b)
    ensures Reach(large, a, b)
  {
    var p :| WalkFromTo(small, p, a, b);
    assert WalkFromTo(large, p, a, b);
  }

  /** Two members of a component reach each other, and a component is determined by any member. */
  lemma ComponentsMeet(es: Edges, c: set<File>, d: set<File>, x: File)
    requires IsComponent(es, c) && IsComponent(es, d) && x in c && x in d
    ensures c == d
  {
  }

  /** A vertex lies on a cycle exactly when its component is larger than itself or it has a self edge. */
  lemma CyclicComponent(es: Edges, c: set<File>, x: File)
    requires IsComponent(es, c) && x in c
    ensures OnCycle(es, x) <==> c != {x} || (x, x) in es
  {
    if OnCycle(es, x) && (x, x) !in es {
      var m :| (x, m) in es && Reach(es, m, x);
      ReachEdge(es, x, m);
      assert Mutual(es, x, m);
    }
    if c != {x} {
      var y :| y in c && y != x;
      assert Mutual(es, x, y);
      ReachSplit(es, x, y);
      var m :| (x, m) in es && Reach(es, m, y);
      ReachTrans(es, m, y, x);
    }
    if (x, x) in es {
      ReachSelf(es, x);
    }
  }
}
