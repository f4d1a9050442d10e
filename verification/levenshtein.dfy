/** The did-you-mean distance of src/commands/command-explain.ts and the suggestions built on it. */
module Levenshtein {
  import opened Sequences

  /** One step of an edit script, read left to right against the source text. */
  datatype Edit = Keep | Substitute(c: char) | Insert(c: char) | Delete

  datatype Outcome = Invalid | Text(text: string)

  /** Runs a script on a text; a script must account for every character. */
  ghost function Apply(script: seq<Edit>, s: string): Outcome {
    if script == [] then (if s == [] then Text([]) else Invalid)
    else
      var rest, last := script[..|script| - 1], script[|script| - 1];
      if last.Insert? then Emit(Apply(rest, s), [last.c])
      else if s == [] then Invalid
      else
        var before := Apply(rest, s[..|s| - 1]);
        match last
        case Keep => Emit(before, [s[|s| - 1]])
        case Substitute(c) => Emit(before, [c])
        case Delete => before
  }

  ghost function ApplyLast(rest: seq<Edit>, e: Edit, s: string): Outcome {
    if e.Insert? then Emit(Apply(rest, s), [e.c])
    else if s == [] then Invalid
    else if e.Delete? then Apply(rest, s[..|s| - 1])
    else Emit(Apply(rest, s[..|s| - 1]), [if e.Keep? then s[|s| - 1] else e.c])
  }

  ghost function Emit(o: Outcome, tail: string): Outcome {
    match o
    case Invalid => Invalid
    case Text(t) => Text(t + tail)
  }

  ghost function EditCost(e: Edit): nat {
    if e.Keep? then 0 else 1
  }

  ghost function Cost(script: seq<Edit>): nat {
    if script == [] then 0 else Cost(script[..|script| - 1]) + EditCost(script[|script| - 1])
  }

  ghost predicate Turns(script: seq<Edit>, a: string, b: string) {
    Apply(script, a) == Text(b)
  }

  function Min3(x: nat, y: nat, z: nat): nat {
    if x <= y && x <= z then x else if y <= z then y else z
  }

  /** The recurrence the rows of the table follow. */
  function Distance(a: string, b: string): nat
    decreases |a| + |b|
  {
    if a == [] then |b|
    else if b == [] then |a|
    else
      var a', b' := a[..|a| - 1], b[..|b| - 1];
      Min3(Distance(a, b') + 1, Distance(a', b) + 1,
           Distance(a', b') + (if a[|a| - 1] == b[|b| - 1] then 0 else 1))
  }

  /** `levenshtein`: two rolling rows. */
  method ComputeLevenshtein(left: string, right: string) returns (d: nat)
    ensures d == Distance(left, right)
  {
    hide Distance;
    FirstRowAndColumn(left, right);
    var previous := seq(|right| + 1, j requires 0 <= j <= |right| => j);
    for i := 1 to |left| + 1
      invariant |previous| == |right| + 1
      invariant forall j :: 0 <= j <= |right| ==> previous[j] == Distance(left[..i - 1], right[..j])
    {
      var current := [i];
      for j := 1 to |right| + 1
        invariant |current| == j
        invariant forall k :: 0 <= k < j ==> current[k] == Distance(left[..i], right[..k])
      {
        Recurrence(left, right, i, j);
        current := current + [Min3(current[j - 1] + 1, previous[j] + 1,
                                   previous[j - 1] + (if left[i - 1] == right[j - 1] then 0 else 1))];
      }
      previous := current;
    }
    assert left[..|left|] == left && right[..|right|] == right;
    d := previous[|right|];
  }

  lemma FirstRowAndColumn(left: string, right: string)
    ensures forall j :: 0 <= j <= |right| ==> Distance(left[..0], right[..j]) == j
    ensures forall i :: 0 <= i <= |left| ==> Distance(left[..i], right[..0]) == i
  {
  }

  lemma Recurrence(left: string, right: string, i: nat, j: nat)
    requires 1 <= i <= |left| && 1 <= j <= |right|
    ensures Distance(left[..i], right[..j]) ==
            Min3(Distance(left[..i], right[..j - 1]) + 1, Distance(left[..i - 1], right[..j]) + 1,
                 Distance(left[..i - 1], right[..j - 1]) + (if left[i - 1] == right[j - 1] then 0 else 1))
  {
    var a, b := left[..i], right[..j];
    assert a[..i - 1] == left[..i - 1] && b[..j - 1] == right[..j - 1];
    assert a[|a| - 1] == left[i - 1] && b[|b| - 1] == right[j - 1];
  }

  // ---- the recurrence is the optimum over edit scripts ----

  lemma OneMore(script: seq<Edit>, e: Edit)
    ensures Cost(script + [e]) == Cost(script) + EditCost(e)
    ensures forall s :: Apply(script + [e], s) == ApplyLast(script, e, s)
  {
  }

  lemma SplitLast(s: string)
    requires s != []
    ensures s == s[..|s| - 1] + [s[|s| - 1]]
  {
  }

  /** A script that ends by writing a character leaves the rest of the text to its earlier edits. */
  lemma LastWritten(script: seq<Edit>, a: string, b: string)
    requires script != [] && Turns(script, a, b)
    ensures var rest, e := script[..|script| - 1], script[|script| - 1];
      && (!e.Insert? ==> a != [])
      && (!e.Delete? ==> b != [] && b[|b| - 1] == if e.Keep? then a[|a| - 1] else e.c)
      && Turns(rest, if e.Insert? then a else a[..|a| - 1], if e.Delete? then b else b[..|b| - 1])
  {
  }

  /** The last edit of a cheapest script, and the texts it leaves to the edits before it. */
  lemma BestLastEdit(a: string, b: string) returns (e: Edit, x: string, y: string)
    requires a != [] || b != []
    ensures |x| + |y| < |a| + |b| && Distance(a, b) == Distance(x, y) + EditCost(e)
    ensures if e.Insert? then x == a && b == y + [e.c]
            else a != [] && x == a[..|a| - 1] &&
                 (if e.Delete? then y == b else b == y + [if e.Keep? then a[|a| - 1] else e.c])
  {
    if a == [] || (b != [] && Distance(a, b) == Distance(a, b[..|b| - 1]) + 1) {
      SplitLast(b);
      e, x, y := Insert(b[|b| - 1]), a, b[..|b| - 1];
    } else if b == [] || Distance(a, b) == Distance(a[..|a| - 1], b) + 1 {
      e, x, y := Delete, a[..|a| - 1], b;
    } else {
      SplitLast(b);
      e, x, y := if a[|a| - 1] == b[|b| - 1] then Keep else Substitute(b[|b| - 1]), a[..|a| - 1], b[..|b| - 1];
    }
  }

  /** Some script attains the distance. */
  lemma {:induction false} BestScript(a: string, b: string) returns (script: seq<Edit>)
    ensures Turns(script, a, b) && Cost(script) == Distance(a, b)
    decreases |a| + |b|
  {
    if a == [] && b == [] {
      return [];
    }
    var e, x, y := BestLastEdit(a, b);
    hide Distance;
    var rest := BestScript(x, y);
    OneMore(rest, e);
    script := rest + [e];
  }

  /** No script is cheaper. */
  lemma {:induction false} NoCheaperScript(script: seq<Edit>, a: string, b: string)
    requires Turns(script, a, b)
    ensures Distance(a, b) <= Cost(script)
  {
    if script != [] {
      var rest, e := script[..|script| - 1], script[|script| - 1];
      LastWritten(script, a, b);
      NoCheaperScript(rest, if e.Insert? then a else a[..|a| - 1], if e.Delete? then b else b[..|b| - 1]);
    }
  }

  lemma DistanceIsOptimal(a: string, b: string)
    ensures exists script :: Turns(script, a, b) && Cost(script) == Distance(a, b)
    ensures forall script :: Turns(script, a, b) ==> Distance(a, b) <= Cost(script)
  {
    var best := BestScript(a, b);
    forall script | Turns(script, a, b)
      ensures Distance(a, b) <= Cost(script)
    {
      NoCheaperScript(script, a, b);
    }
  }

  // ---- a metric ----

  lemma {:induction false} Symmetric(a: string, b: string)
    ensures Distance(a, b) == Distance(b, a)
    decreases |a| + |b|
  {
    if a != [] && b != [] {
      var a', b' := a[..|a| - 1], b[..|b| - 1];
      Symmetric(a, b');
      Symmetric(a', b);
      Symmetric(a', b');
    }
  }

  lemma {:induction false} ZeroMeansEqual(a: string, b: string)
    ensures Distance(a, b) == 0 <==> a == b
    decreases |a| + |b|
  {
    if a != [] && b != [] {
      var a', b' := a[..|a| - 1], b[..|b| - 1];
      SplitLast(a);
      SplitLast(b);
      ZeroMeansEqual(a', b');
    }
  }

  /** Two scripts in a row are no better than one: the middle text can be skipped. */
  lemma {:induction false} Compose(p: seq<Edit>, q: seq<Edit>, a: string, b: string, c: string) returns (r: seq<Edit>)
    requires Turns(p, a, b) && Turns(q, b, c)
    ensures Turns(r, a, c) && Cost(r) <= Cost(p) + Cost(q)
    decreases |p| + |q|
  {
    if p == [] {
      return q;
    }
    if q == [] {
      return p;
    }
    var p', e := p[..|p| - 1], p[|p| - 1];
    var q', f := q[..|q| - 1], q[|q| - 1];
    if e.Delete? {
      var rest := Compose(p', q, a[..|a| - 1], b, c);
      OneMore(rest, Delete);
      return rest + [Delete];
    }
    if f.Insert? {
      LastWritten(q, b, c);
      var rest := Compose(p, q', a, b, c[..|c| - 1]);
      OneMore(rest, f);
      return rest + [f];
    }
    LastWritten(p, a, b);
    LastWritten(q, b, c);
    var x := if e.Insert? then a else a[..|a| - 1];
    var y := if f.Delete? then c else c[..|c| - 1];
    var rest := Compose(p', q', x, b[..|b| - 1], y);
    if e.Insert? && f.Delete? {
      return rest;
    }
    var g := if f.Delete? then Delete else if e.Insert? then Insert(c[|c| - 1])
             else if e.Keep? && f.Keep? then Keep else Substitute(c[|c| - 1]);
    OneMore(rest, g);
    r := rest + [g];
  }

  lemma {:induction false} TriangleInequality(a: string, b: string, c: string)
    ensures Distance(a, c) <= Distance(a, b) + Distance(b, c)
  {
    var p := BestScript(a, b);
    var q := BestScript(b, c);
    var r := Compose(p, q, a, b, c);
    NoCheaperScript(r, a, c);
  }

  // ---- suggestions ----

  datatype Candidate = Candidate(name: string, distance: nat)

  /** Nearest first, and by name among equals. */
  function Nearest(le: (string, string) -> bool): (order: (Candidate, Candidate) -> bool)
    requires TotalPreorder(le)
    ensures TotalPreorder(order)
    ensures forall x, y :: order(x, y) ==> x.distance <= y.distance
  {
    var order := (x: Candidate, y: Candidate) =>
      x.distance < y.distance || (x.distance == y.distance && le(x.name, y.name));
    assert forall x, y :: order(x, y) <==> x.distance < y.distance || (x.distance == y.distance && le(x.name, y.name));
    order
  }

  /** The candidates in order of first mention, each once. */
  function Unique(names: seq<string>): (r: seq<string>)
    ensures Distinct(r) && forall n :: n in r <==> n in names
  {
    if names == [] then []
    else
      var r := Unique(names[..|names| - 1]);
      assert names == names[..|names| - 1] + [names[|names| - 1]];
      if names[|names| - 1] in r then r else r + [names[|names| - 1]]
  }

  /** `m` is nearer to the query than `n`, or as near and not behind it by name. */
  ghost predicate NoFarther(query: string, le: (string, string) -> bool, m: string, n: string) {
    || Distance(query, m) < Distance(query, n)
    || (Distance(query, m) == Distance(query, n) && le(m, n))
  }

  /** At most three names, nearest first and by name among equals, that nothing left out comes before. */
  ghost predicate BestThree(r: seq<string>, query: string, names: seq<string>, le: (string, string) -> bool)
  {
    && Distinct(r) && (forall n :: n in r ==> n in names)
    && |r| <= 3 && (|r| < 3 ==> forall n :: n in names ==> n in r)
    && (forall i, j :: 0 <= i < j < |r| ==> NoFarther(query, le, r[i], r[j]))
    && (forall n, m :: n in names && n !in r && m in r ==> NoFarther(query, le, m, n))
  }

  /** `suggestCommands` over the given names. */
  method SuggestCommands(query: string, names: seq<string>, le: (string, string) -> bool) returns (r: seq<string>)
    requires TotalPreorder(le)
    ensures BestThree(r, query, names, le)
  {
    hide Distance, TotalPreorder;
    var unique := Unique(names);
    var weighed := [];
    for i := 0 to |unique|
      invariant |weighed| == i
      invariant forall k :: 0 <= k < i ==> weighed[k] == Candidate(unique[k], Distance(query, unique[k]))
    {
      var d := ComputeLevenshtein(query, unique[i]);
      weighed := weighed + [Candidate(unique[i], d)];
    }
    var sorted := Sort(weighed, Nearest(le));
    var top := if |sorted| <= 3 then sorted else sorted[..3];
    r := seq(|top|, i requires 0 <= i < |top| => top[i].name);
    SortedIsRanking(query, names, unique, weighed, sorted);
    TopThree(query, names, sorted, r, le);
  }

  /** Each name once, weighed by its distance from the query. */
  ghost predicate Ranking(query: string, names: seq<string>, ranked: seq<Candidate>) {
    && (forall i :: 0 <= i < |ranked| ==>
          ranked[i].name in names && ranked[i].distance == Distance(query, ranked[i].name))
    && (forall i, j :: 0 <= i < j < |ranked| ==> ranked[i].name != ranked[j].name)
    && (forall n :: n in names ==> exists i :: 0 <= i < |ranked| && ranked[i].name == n)
  }

  lemma SortedIsRanking(query: string, names: seq<string>, unique: seq<string>, weighed: seq<Candidate>,
                        sorted: seq<Candidate>)
    requires Distinct(unique) && (forall n :: n in unique <==> n in names) && |weighed| == |unique|
    requires forall k :: 0 <= k < |unique| ==> weighed[k] == Candidate(unique[k], Distance(query, unique[k]))
    requires multiset(sorted) == multiset(weighed)
    ensures Ranking(query, names, sorted)
  {
    hide Distance;
    SamePermutation(weighed, sorted);
    PermutationKeepsDistinct(weighed, sorted);
    forall i | 0 <= i < |sorted|
      ensures sorted[i].name in names && sorted[i].distance == Distance(query, sorted[i].name)
    {
      assert sorted[i] in weighed;
    }
    forall n | n in names
      ensures exists i :: 0 <= i < |sorted| && sorted[i].name == n
    {
      var k :| 0 <= k < |unique| && unique[k] == n;
      assert weighed[k] in sorted;
      var i :| 0 <= i < |sorted| && sorted[i] == weighed[k];
    }
  }

  lemma TopThree(query: string, names: seq<string>, sorted: seq<Candidate>, r: seq<string>,
                 le: (string, string) -> bool)
    requires TotalPreorder(le) && Ranking(query, names, sorted) && Sorted(sorted, Nearest(le))
    requires |r| == (if |sorted| <= 3 then |sorted| else 3) && forall i :: 0 <= i < |r| ==> r[i] == sorted[i].name
    ensures BestThree(r, query, names, le)
  {
    hide Distance, Nearest;
    forall i, j | 0 <= i < j < |sorted|
      ensures NoFarther(query, le, sorted[i].name, sorted[j].name)
    {
      NearestMeans(le, sorted[i], sorted[j]);
    }
    forall n, m | n in names && n !in r && m in r
      ensures NoFarther(query, le, m, n)
    {
      var i :| 0 <= i < |r| && r[i] == m;
      var j :| 0 <= j < |sorted| && sorted[j].name == n;
      assert i < j;
    }
  }

  lemma NearestMeans(le: (string, string) -> bool, x: Candidate, y: Candidate)
    requires TotalPreorder(le)
    ensures Nearest(le)(x, y) <==> x.distance < y.distance || (x.distance == y.distance && le(x.name, y.name))
  {
  }
}
