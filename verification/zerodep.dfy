/** The zero-dependency job closure of scripts/layering/zero-dep-jobs.ts. */
module ZeroDepJobs {
  import opened Digraph
  import opened Sequences
  import opened Wrappers

  /** A script's text as far as it matters: the paths it names and the `pnpm <name>` words in it. */
  datatype RunBlock = RunBlock(entries: seq<File>, calls: seq<string>)

  type Scripts = map<string, RunBlock>

  /** A chain of aliases, each defined and none in `barred`, each named by the script before it. */
  ghost predicate IsCallWalk(scripts: Scripts, barred: set<string>, w: seq<string>) {
    && |w| > 0
    && (forall i :: 0 <= i < |w| ==> w[i] in scripts && w[i] !in barred)
    && (forall i :: 0 <= i < |w| - 1 ==> w[i + 1] in scripts[w[i]].calls)
  }

  /** `f` exists and is named by `run` or by a script some chain of aliases leads to. */
  ghost predicate Collects(run: RunBlock, scripts: Scripts, present: File -> bool, barred: set<string>, f: File) {
    present(f) && (f in run.entries || exists w :: CallsInto(run, scripts, barred, w, f))
  }

  ghost predicate CallsInto(run: RunBlock, scripts: Scripts, barred: set<string>, w: seq<string>, f: File) {
    IsCallWalk(scripts, barred, w) && w[0] in run.calls && f in scripts[w[|w| - 1]].entries
  }

  /** A chain may be shortened to start after its last mention of `name`. */
  lemma {:induction false} SkipToLast(scripts: Scripts, barred: set<string>, w: seq<string>, name: string, k: nat)
    requires IsCallWalk(scripts, barred, w) && k < |w| && w[k] == name
    ensures exists m :: k <= m < |w| && w[m] == name && name !in w[m + 1..]
    decreases |w| - k
  {
    if name in w[k + 1..] {
      var j :| 0 <= j < |w[k + 1..]| && w[k + 1..][j] == name;
      SkipToLast(scripts, barred, w, name, k + 1 + j);
    }
  }

  /** Going through alias `name` finds what its script finds without coming back to `name`. */
  lemma ExpandAlias(run: RunBlock, scripts: Scripts, present: File -> bool, barred: set<string>, name: string, f: File)
    requires name in run.calls && name in scripts && name !in barred
    requires Collects(scripts[name], scripts, present, barred + {name}, f)
    ensures Collects(run, scripts, present, barred, f)
  {
    if f in scripts[name].entries {
      assert CallsInto(run, scripts, barred, [name], f);
    } else {
      var w :| CallsInto(scripts[name], scripts, barred + {name}, w, f);
      var longer := [name] + w;
      forall i | 0 <= i < |longer| - 1
        ensures longer[i + 1] in scripts[longer[i]].calls
      {
        if i > 0 {
          assert w[i] in scripts[w[i - 1]].calls;
        }
      }
      assert CallsInto(run, scripts, barred, longer, f);
    }
  }

  /** Whatever a script finds through aliases it finds through its first alias without revisiting it. */
  lemma NarrowAlias(run: RunBlock, scripts: Scripts, present: File -> bool, barred: set<string>, w: seq<string>,
                    f: File)
    requires present(f) && CallsInto(run, scripts, barred, w, f)
    ensures Collects(scripts[w[0]], scripts, present, barred + {w[0]}, f)
  {
    var name := w[0];
    SkipToLast(scripts, barred, w, name, 0);
    var m :| 0 <= m < |w| && w[m] == name && name !in w[m + 1..];
    var rest := w[m + 1..];
    if rest != [] {
      forall i | 0 <= i < |rest|
        ensures rest[i] in scripts && rest[i] !in barred + {name}
      {
        assert rest[i] == w[m + 1 + i] && rest[i] in rest;
      }
      forall i | 0 <= i < |rest| - 1
        ensures rest[i + 1] in scripts[rest[i]].calls
      {
        assert w[m + 1 + i + 1] in scripts[w[m + 1 + i]].calls;
      }
      assert rest[0] == w[m + 1] && w[m + 1] in scripts[w[m]].calls;
      assert rest[|rest| - 1] == w[|w| - 1];
      assert CallsInto(scripts[name], scripts, barred + {name}, rest, f);
    }
  }

  class EntrySet {
    var found: set<File>

    constructor ()
      ensures found == {}
    {
      found := {};
    }
  }

  /** What the aliases `calls` contribute. */
  ghost predicate FromCalls(calls: seq<string>, scripts: Scripts, present: File -> bool, barred: set<string>, f: File) {
    exists name :: name in calls && name in scripts && name !in barred
                   && Collects(scripts[name], scripts, present, barred + {name}, f)
  }

  lemma CollectsByCalls(run: RunBlock, scripts: Scripts, present: File -> bool, barred: set<string>, f: File)
    ensures Collects(run, scripts, present, barred, f) <==>
            (present(f) && f in run.entries) || FromCalls(run.calls, scripts, present, barred, f)
  {
    if Collects(run, scripts, present, barred, f) && f !in run.entries {
      var w :| CallsInto(run, scripts, barred, w, f);
      NarrowAlias(run, scripts, present, barred, w, f);
    }
    if FromCalls(run.calls, scripts, present, barred, f) {
      var name :| name in run.calls && name in scripts && name !in barred
                  && Collects(scripts[name], scripts, present, barred + {name}, f);
      ExpandAlias(run, scripts, present, barred, name, f);
    }
  }

  /**
   `resolveRunEntries`. The chain only cuts names already being expanded, so scripts are expanded once
   per path; it terminates on every script table and still collects exactly the reachable entries.
   */
  method ResolveRunEntries(run: RunBlock, scripts: Scripts, present: File -> bool, entries: EntrySet,
                           chain: set<string>)
    modifies entries
    ensures forall f :: f in entries.found <==> f in old(entries.found) || Collects(run, scripts, present, chain, f)
    decreases scripts.Keys - chain
  {
    hide Collects, FromCalls;
    for i := 0 to |run.entries|
      invariant forall f :: f in entries.found <==> f in old(entries.found) || (present(f) && f in run.entries[..i])
    {
      assert run.entries[..i + 1] == run.entries[..i] + [run.entries[i]];
      if present(run.entries[i]) {
        entries.found := entries.found + {run.entries[i]};
      }
    }
    assert run.entries[..|run.entries|] == run.entries;
    ghost var direct := entries.found;
    NoCalls(run.calls, scripts, present, chain);
    for i := 0 to |run.calls|
      invariant forall f :: f in entries.found <==> f in direct || FromCalls(run.calls[..i], scripts, present, chain, f)
    {
      var name := run.calls[i];
      OneMoreCall(run.calls, i, scripts, present, chain);
      if name in chain {
        continue;
      }
      if name !in scripts {
        continue;
      }
      assert name in scripts.Keys && name !in chain;
      ResolveRunEntries(scripts[name], scripts, present, entries, chain + {name});
    }
    assert run.calls[..|run.calls|] == run.calls;
    forall f
      ensures Collects(run, scripts, present, chain, f) <==>
              (present(f) && f in run.entries) || FromCalls(run.calls, scripts, present, chain, f)
    {
      CollectsByCalls(run, scripts, present, chain, f);
    }
  }

  lemma NoCalls(calls: seq<string>, scripts: Scripts, present: File -> bool, barred: set<string>)
    ensures forall f :: !FromCalls(calls[..0], scripts, present, barred, f)
  {
  }

  lemma OneMoreCall(calls: seq<string>, i: nat, scripts: Scripts, present: File -> bool, barred: set<string>)
    requires i < |calls|
    ensures forall f :: FromCalls(calls[..i + 1], scripts, present, barred, f) <==>
      FromCalls(calls[..i], scripts, present, barred, f) ||
      (calls[i] in scripts && calls[i] !in barred &&
       Collects(scripts[calls[i]], scripts, present, barred + {calls[i]}, f))
  {
  }

  /** The entries of a job: every step's run block, expanded from an empty chain. */
  method JobEntries(steps: seq<RunBlock>, scripts: Scripts, present: File -> bool) returns (found: set<File>)
    ensures forall f :: f in found <==> exists i :: 0 <= i < |steps| && Collects(steps[i], scripts, present, {}, f)
  {
    hide Collects;
    var entries := new EntrySet();
    for i := 0 to |steps|
      invariant fresh(entries)
      invariant forall f :: f in entries.found <==>
                  exists k :: 0 <= k < i && Collects(steps[k], scripts, present, {}, f)
    {
      ResolveRunEntries(steps[i], scripts, present, entries, {});
    }
    found := entries.found;
  }

  // ---- the import closure of a job ----

  /** A module specifier, as the parser and the resolver classify it. */
  datatype Spec = Relative(target: Option<File>) | Builtin | Package(name: string, line: nat)

  datatype Uninstallable = Uninstallable(file: File, line: nat, name: string)

  /** The repository: readable files and what they import. */
  type Sources = map<File, seq<Spec>>

  function SpecsOf(sources: Sources, f: File): seq<Spec> {
    if f in sources then sources[f] else []
  }

  ghost function RelativeImports(sources: Sources): Edges {
    set f, s | f in sources && s in sources[f] && s.Relative? && s.target.Some? :: (f, s.target.value)
  }

  function PackagesIn(file: File, specs: seq<Spec>): seq<Uninstallable> {
    if specs == [] then []
    else
      PackagesIn(file, specs[..|specs| - 1]) +
      (match specs[|specs| - 1]
       case Package(name, line) => [Uninstallable(file, line, name)]
       case _ => [])
  }

  /** Every package import of the listed files, file by file. */
  function PackagesOf(sources: Sources, order: seq<File>): seq<Uninstallable> {
    if order == [] then []
    else
      PackagesOf(sources, order[..|order| - 1]) + PackagesIn(order[|order| - 1], SpecsOf(sources, order[|order| - 1]))
  }

  ghost predicate ReachedFrom(sources: Sources, entries: seq<File>, f: File) {
    exists e :: e in entries && Reach(RelativeImports(sources), e, f)
  }

  /** Visited files lead only to visited or queued ones, and everything seen is reachable from an entry. */
  ghost predicate Walking(sources: Sources, entries: seq<File>, visited: set<File>, queue: seq<File>) {
    && (forall e :: e in entries ==> e in visited || e in queue)
    && (forall f :: f in visited || f in queue ==> ReachedFrom(sources, entries, f))
    && (forall a, b :: (a, b) in RelativeImports(sources) && a in visited ==> b in visited || b in queue)
  }

  lemma WalkSkips(sources: Sources, entries: seq<File>, visited: set<File>, queue: seq<File>)
    requires Walking(sources, entries, visited, queue) && queue != [] && queue[0] in visited
    ensures Walking(sources, entries, visited, queue[1..])
  {
  }

  lemma WalkVisits(sources: Sources, entries: seq<File>, visited: set<File>, queue: seq<File>, more: seq<File>)
    requires Walking(sources, entries, visited, queue) && queue != []
    requires forall t :: t in more <==> (queue[0], t) in RelativeImports(sources)
    ensures Walking(sources, entries, visited + {queue[0]}, queue[1..] + more)
  {
    assert queue == [queue[0]] + queue[1..];
    forall t | t in more
      ensures ReachedFrom(sources, entries, t)
    {
      assert ReachedFrom(sources, entries, queue[0]);
      var e :| e in entries && Reach(RelativeImports(sources), e, queue[0]);
      ReachThenEdge(RelativeImports(sources), e, queue[0], t);
      ReachPlusIsReach(RelativeImports(sources), e, t);
    }
  }

  lemma WalkDone(sources: Sources, entries: seq<File>, visited: set<File>)
    requires Walking(sources, entries, visited, [])
    ensures forall f :: f in visited <==> ReachedFrom(sources, entries, f)
  {
    forall f | ReachedFrom(sources, entries, f)
      ensures f in visited
    {
      var e :| e in entries && Reach(RelativeImports(sources), e, f);
      ClosedStays(RelativeImports(sources), visited, e, f);
    }
  }

  lemma WalkStarts(sources: Sources, entries: seq<File>)
    ensures Walking(sources, entries, {}, entries)
  {
    forall f | f in entries
      ensures ReachedFrom(sources, entries, f)
    {
      ReachSelf(RelativeImports(sources), f);
    }
  }

  /** The specifiers of one visited file: relative targets join the queue, packages are reported. */
  method ReadSpecs(file: File, specs: seq<Spec>) returns (targets: seq<File>, found: seq<Uninstallable>)
    ensures forall t :: t in targets <==> Relative(Some(t)) in specs
    ensures found == PackagesIn(file, specs)
  {
    targets, found := [], [];
    for i := 0 to |specs|
      invariant forall t :: t in targets <==> Relative(Some(t)) in specs[..i]
      invariant found == PackagesIn(file, specs[..i])
    {
      assert specs[..i + 1] == specs[..i] + [specs[i]];
      match specs[i] {
        case Relative(target) =>
          if target.Some? {
            targets := targets + [target.value];
          }
        case Builtin =>
        case Package(name, line) => found := found + [Uninstallable(file, line, name)];
      }
    }
    assert specs[..|specs|] == specs;
  }

  /**
   `walkJobClosure`: visits exactly the files reachable from the entries over relative imports, each
   once, and reports exactly their package imports.
   */
  method WalkJobClosure(entries: seq<File>, sources: Sources)
      returns (visited: set<File>, found: seq<Uninstallable>, ghost order: seq<File>)
    ensures forall f :: f in visited <==> ReachedFrom(sources, entries, f)
    ensures Distinct(order) && Elements(order) == visited && found == PackagesOf(sources, order)
  {
    hide Walking, ReachedFrom, Distinct;
    visited, found, order := {}, [], [];
    var queue := entries;
    ghost var universe := Elements(entries) + Endpoints(RelativeImports(sources));
    EndpointsCover(RelativeImports(sources));
    WalkStarts(sources, entries);
    NothingVisited();
    while queue != []
      invariant Walking(sources, entries, visited, queue)
      invariant visited <= universe && forall f :: f in queue ==> f in universe
      invariant Distinct(order) && Elements(order) == visited && found == PackagesOf(sources, order)
      decreases universe - visited, |queue|
    {
      var file := queue[0];
      if file in visited {
        WalkSkips(sources, entries, visited, queue);
        queue := queue[1..];
        continue;
      }
      var targets, packages := ReadSpecs(file, SpecsOf(sources, file));
      ImportsOfOne(sources, file);
      WalkVisits(sources, entries, visited, queue, targets);
      AppendDistinct(order, file);
      assert (order + [file])[..|order|] == order;
      queue := queue[1..] + targets;
      visited := visited + {file};
      order := order + [file];
      found := found + packages;
    }
    WalkDone(sources, entries, visited);
  }

  lemma NothingVisited()
    ensures Distinct<File>([])
  {
  }

  lemma ImportsOfOne(sources: Sources, file: File)
    ensures forall t :: Relative(Some(t)) in SpecsOf(sources, file) <==> (file, t) in RelativeImports(sources)
  {
  }

  /** Every package import of every reachable file is reported, and nothing else is. */
  lemma {:induction false} PackagesAreComplete(sources: Sources, order: seq<File>, u: Uninstallable)
    ensures u in PackagesOf(sources, order) <==>
            u.file in order && Package(u.name, u.line) in SpecsOf(sources, u.file)
  {
    if order != [] {
      var n := |order| - 1;
      PackagesAreComplete(sources, order[..n], u);
      PackagesOfOne(order[n], SpecsOf(sources, order[n]), u);
      assert order == order[..n] + [order[n]];
    }
  }

  /** Packages are reported file by file ... */
  lemma {:induction false} FilesInOrder(sources: Sources, order: seq<File>, rest: seq<File>)
    ensures PackagesOf(sources, order + rest) == PackagesOf(sources, order) + PackagesOf(sources, rest)
  {
    hide PackagesIn, PackagesOf;
    if rest == [] {
      assert order + rest == order;
      NoFiles(sources);
    } else {
      var n := |rest| - 1;
      FilesInOrder(sources, order, rest[..n]);
      OneMoreFile(sources, rest[..n], rest[n]);
      OneMoreFile(sources, order + rest[..n], rest[n]);
      assert rest == rest[..n] + [rest[n]] && order + rest == (order + rest[..n]) + [rest[n]];
    }
  }

  lemma NoFiles(sources: Sources)
    ensures PackagesOf(sources, []) == []
  {
  }

  lemma OneMoreFile(sources: Sources, order: seq<File>, f: File)
    ensures PackagesOf(sources, order + [f]) == PackagesOf(sources, order) + PackagesIn(f, SpecsOf(sources, f))
  {
    hide PackagesIn, SpecsOf;
    assert (order + [f])[..|order|] == order;
  }

  /** ... and, within a file, import by import. */
  lemma {:induction false} ImportsInOrder(file: File, specs: seq<Spec>, more: seq<Spec>)
    ensures PackagesIn(file, specs + more) == PackagesIn(file, specs) + PackagesIn(file, more)
  {
    if more == [] {
      assert specs + more == specs;
    } else {
      var n := |more| - 1;
      ImportsInOrder(file, specs, more[..n]);
      assert (specs + more)[..|specs| + n] == specs + more[..n];
    }
  }

  /** Each package import is reported once for each time its file states it. */
  lemma {:induction false} PackagesOnce(file: File, specs: seq<Spec>, u: Uninstallable)
    ensures multiset(PackagesIn(file, specs))[u] ==
            if u.file == file then multiset(specs)[Package(u.name, u.line)] else 0
  {
    if specs != [] {
      var n := |specs| - 1;
      PackagesOnce(file, specs[..n], u);
      DropLast(specs);
      PackagesGrow(file, specs, u);
    }
  }

  lemma PackagesGrow(file: File, specs: seq<Spec>, u: Uninstallable)
    requires specs != []
    ensures multiset(PackagesIn(file, specs))[u] == multiset(PackagesIn(file, specs[..|specs| - 1]))[u] +
            (if u.file == file && specs[|specs| - 1] == Package(u.name, u.line) then 1 else 0)
  {
  }

  lemma {:induction false} PackagesOfOne(file: File, specs: seq<Spec>, u: Uninstallable)
    ensures u in PackagesIn(file, specs) <==> u.file == file && Package(u.name, u.line) in specs
  {
    if specs != [] {
      var n := |specs| - 1;
      PackagesOfOne(file, specs[..n], u);
      assert specs == specs[..n] + [specs[n]];
    }
  }
}
