/** The mutation lane end to end: slices from scripts/mutation/run.ts, scores from scripts/mutation/score.ts. */
module ShardedLane {
  import opened Digraph
  import opened Packing
  import opened Scoring
  import opened Sequences
  import opened Sharding
  import opened Wrappers

  /** The bin a file went to. */
  function SlotOf(ws: seq<Weighed>, assign: seq<nat>, f: File): nat
    requires |assign| == |ws|
  {
    if ws == [] then 0
    else if ws[|ws| - 1].file == f then assign[|ws| - 1]
    else SlotOf(ws[..|ws| - 1], assign[..|ws| - 1], f)
  }

  ghost predicate ListedOnce(ws: seq<Weighed>) {
    forall f :: Names(ws)[f] <= 1
  }

  lemma {:induction false} OnlyNamedFiles(ws: seq<Weighed>, assign: seq<nat>, b: nat, f: File)
    requires |assign| == |ws| && f in FilesIn(ws, assign, b)
    ensures f in Names(ws)
  {
    var n := |ws| - 1;
    if f in FilesIn(ws[..n], assign[..n], b) {
      OnlyNamedFiles(ws[..n], assign[..n], b, f);
    }
  }

  lemma {:induction false} BinOfFile(ws: seq<Weighed>, assign: seq<nat>, b: nat, f: File)
    requires |assign| == |ws| && f in Names(ws) && ListedOnce(ws)
    ensures f in FilesIn(ws, assign, b) <==> SlotOf(ws, assign, f) == b
    ensures SlotOf(ws, assign, f) in assign
  {
    var n := |ws| - 1;
    var before := Names(ws[..n]);
    assert Names(ws) == before + multiset{ws[n].file};
    assert forall g :: before[g] <= Names(ws)[g];
    if ws[n].file == f {
      assert before[f] == 0;
      if f in FilesIn(ws[..n], assign[..n], b) {
        OnlyNamedFiles(ws[..n], assign[..n], b, f);
      }
    } else {
      BinOfFile(ws[..n], assign[..n], b, f);
    }
  }

  /** The job a source goes to, counted from zero. */
  function JobOf(files: seq<Weighed>, count: nat, le: (File, File) -> bool, f: File): nat
    requires count >= 1 && TotalPreorder(le)
  {
    var weighed := Sort(files, LargestFirst(le));
    SlotOf(weighed, Greedy(Sizes(weighed), count), f)
  }

  /** Each source is in the slice of exactly one job. */
  lemma SliceHoldsItsFiles(files: seq<Weighed>, shard: Shard, le: (File, File) -> bool, name: (File, File) -> bool,
                           f: File)
    requires ParsedShard(shard) && TotalPreorder(le) && TotalPreorder(name)
    requires ListedOnce(files) && f in Names(files)
    ensures JobOf(files, shard.count, le, f) < shard.count
    ensures f in Slice(files, shard, le, name) <==> JobOf(files, shard.count, le, f) == shard.index - 1
  {
    hide FilesIn, TotalPreorder, SlotOf;
    var weighed := Sort(files, LargestFirst(le));
    var assign := Greedy(Sizes(weighed), shard.count);
    NamesOfPermutation(weighed, files);
    BinOfFile(weighed, assign, shard.index - 1, f);
    SliceIsBin(files, shard, le, name);
    SamePermutation(Slice(files, shard, le, name), FilesIn(weighed, assign, shard.index - 1));
  }

  /** What one job reports: the entries of an unsharded report for the files of its slice. */
  function PartOn(files: map<File, seq<Mutant>>, order: seq<File>, slice: seq<File>): Report
    requires forall f :: f in order ==> f in files
  {
    if order == [] then Report(map[], [])
    else
      var n := |order| - 1;
      var r := PartOn(files, order[..n], slice);
      if order[n] in slice then Report(r.files[order[n] := files[order[n]]], r.order + [order[n]]) else r
  }

  lemma {:induction false} PartIsShardReport(files: map<File, seq<Mutant>>, order: seq<File>, slice: seq<File>,
                                             slot: File -> nat, i: nat)
    requires (forall f :: f in order ==> f in files) && forall f :: f in order ==> (f in slice <==> slot(f) == i)
    ensures PartOn(files, order, slice) == ShardReport(files, order, slot, i)
  {
    if order != [] {
      PartIsShardReport(files, order[..|order| - 1], slice, slot, i);
    }
  }

  // ---- the job matrix ----

  /** A registry module with the sources its globs expand to, and the number of jobs it is sliced across. */
  datatype KernelModule = KernelModule(id: ModuleId, sources: seq<Weighed>, shards: nat)

  datatype Job = Job(kernel: KernelModule, index: nat)

  function FileNames(ws: seq<Weighed>): (r: seq<File>)
    ensures forall f :: f in r <==> f in Names(ws)
  {
    if ws == [] then [] else FileNames(ws[..|ws| - 1]) + [ws[|ws| - 1].file]
  }

  /** The modules asked for, in registry order. */
  function Selected(modules: seq<KernelModule>, ids: seq<ModuleId>): (r: seq<KernelModule>)
    ensures forall m :: m in r <==> m in modules && m.id in ids
  {
    if modules == [] then []
    else
      Selected(modules[..|modules| - 1], ids) +
      (if modules[|modules| - 1].id in ids then [modules[|modules| - 1]] else [])
  }

  function JobsOf(m: KernelModule): (r: seq<Job>)
    ensures |r| == m.shards && forall i :: 0 <= i < |r| ==> r[i] == Job(m, i + 1)
  {
    seq(m.shards, i requires 0 <= i < m.shards => Job(m, i + 1))
  }

  ghost predicate ProperJobs(jobs: seq<Job>) {
    forall k :: 0 <= k < |jobs| ==> 1 <= jobs[k].index <= jobs[k].kernel.shards
  }

  function AllJobs(modules: seq<KernelModule>): (r: seq<Job>)
    ensures ProperJobs(r)
  {
    if modules == [] then [] else AllJobs(modules[..|modules| - 1]) + JobsOf(modules[|modules| - 1])
  }

  /** `shardMatrix` */
  function ShardMatrix(modules: seq<KernelModule>, ids: seq<ModuleId>): (r: seq<Job>)
    ensures ProperJobs(r)
  {
    AllJobs(Selected(modules, ids))
  }

  /** The matrix lists the modules in registry order ... */
  lemma {:induction false} MatrixInOrder(modules: seq<KernelModule>, more: seq<KernelModule>, ids: seq<ModuleId>)
    ensures ShardMatrix(modules + more, ids) == ShardMatrix(modules, ids) + ShardMatrix(more, ids)
  {
    hide ShardMatrix, JobsOf;
    if more == [] {
      assert modules + more == modules && ShardMatrix(more, ids) == [] by { NoJobs(ids); }
    } else {
      var n := |more| - 1;
      MatrixInOrder(modules, more[..n], ids);
      assert (modules + more)[..|modules| + n] == modules + more[..n];
      MatrixGrows(modules + more, ids);
      MatrixGrows(more, ids);
    }
  }

  /** ... and the jobs of one by number. */
  lemma JobsInOrder(m: KernelModule, ids: seq<ModuleId>)
    ensures |ShardMatrix([m], ids)| == if m.id in ids then m.shards else 0
    ensures forall i :: 0 <= i < |ShardMatrix([m], ids)| ==> ShardMatrix([m], ids)[i] == Job(m, i + 1)
  {
    hide ShardMatrix;
    MatrixGrows([m], ids);
    NoJobs(ids);
    assert [m][..0] == [];
  }

  lemma NoJobs(ids: seq<ModuleId>)
    ensures ShardMatrix([], ids) == []
  {
  }

  lemma MatrixGrows(modules: seq<KernelModule>, ids: seq<ModuleId>)
    requires modules != []
    ensures var m := modules[|modules| - 1];
      ShardMatrix(modules, ids) ==
        ShardMatrix(modules[..|modules| - 1], ids) + (if m.id in ids then JobsOf(m) else [])
  {
    hide JobsOf;
    var r := Selected(modules[..|modules| - 1], ids);
    var m := modules[|modules| - 1];
    assert (r + [m])[..|r|] == r;
    assert r + [] == r;
  }

  /** What a job mutates: all of its module's sources if it is the only job, its own slice of them otherwise. */
  ghost function JobFiles(job: Job, le: (File, File) -> bool, name: (File, File) -> bool): seq<File>
    requires TotalPreorder(le) && TotalPreorder(name)
    requires 1 <= job.index <= job.kernel.shards
  {
    if job.kernel.shards == 1 then FileNames(job.kernel.sources)
    else Slice(job.kernel.sources, Shard(job.index, job.kernel.shards), le, name)
  }

  /** Every module has a job, lists each source once, and owns what it lists; no two modules share an id. */
  ghost predicate WellOwned(reg: Registry, modules: seq<KernelModule>) {
    && (forall m :: m in modules ==> m.shards >= 1 && ListedOnce(m.sources))
    && (forall m, f :: m in modules && f in Names(m.sources) ==> reg.owner(f) == Some(m.id))
    && (forall i, j :: 0 <= i < j < |modules| ==> modules[i].id != modules[j].id)
  }

  /** What the jobs mutate, job by job. */
  ghost function Workload(jobs: seq<Job>, le: (File, File) -> bool, name: (File, File) -> bool): (r: seq<seq<File>>)
    requires TotalPreorder(le) && TotalPreorder(name) && ProperJobs(jobs)
    ensures |r| == |jobs| && forall k :: 0 <= k < |r| ==> r[k] == JobFiles(jobs[k], le, name)
  {
    seq(|jobs|, k requires 0 <= k < |jobs| => JobFiles(jobs[k], le, name))
  }

  /** How many of the slices hold a file. */
  function Takers(slices: seq<seq<File>>, f: File): nat {
    if slices == [] then 0 else Takers(slices[..|slices| - 1], f) + (if f in slices[|slices| - 1] then 1 else 0)
  }

  lemma {:induction false} TakersConcat(a: seq<seq<File>>, b: seq<seq<File>>, f: File)
    ensures Takers(a + b, f) == Takers(a, f) + Takers(b, f)
  {
    if b == [] {
      assert a + b == a;
    } else {
      var n := |b| - 1;
      assert (a + b)[..|a + b| - 1] == a + b[..n];
      TakersConcat(a, b[..n], f);
    }
  }

  /** Of the first `n` jobs of a module, one takes a source exactly when they include the job it goes to. */
  lemma {:induction false} ModuleTakers(m: KernelModule, n: nat, f: File, le: (File, File) -> bool,
                                        name: (File, File) -> bool)
    requires TotalPreorder(le) && TotalPreorder(name) && n <= m.shards && ListedOnce(m.sources)
    requires ProperJobs(JobsOf(m)[..n])
    ensures Takers(Workload(JobsOf(m)[..n], le, name), f) ==
            if n > 0 && f in Names(m.sources) && (m.shards == 1 || JobOf(m.sources, m.shards, le, f) < n) then 1 else 0
  {
    hide TotalPreorder, ListedOnce, Slice, JobOf, Names, JobFiles;
    if n > 0 {
      var w := Workload(JobsOf(m)[..n], le, name);
      ModuleTakers(m, n - 1, f, le, name);
      assert w[..n - 1] == Workload(JobsOf(m)[..n - 1], le, name);
      SliceOrNot(m, n, f, le, name);
    }
  }

  lemma SliceOrNot(m: KernelModule, n: nat, f: File, le: (File, File) -> bool, name: (File, File) -> bool)
    requires TotalPreorder(le) && TotalPreorder(name) && 1 <= n <= m.shards && ListedOnce(m.sources)
    ensures f in JobFiles(Job(m, n), le, name) <==>
            f in Names(m.sources) && (m.shards == 1 || JobOf(m.sources, m.shards, le, f) == n - 1)
  {
    hide TotalPreorder, ListedOnce, JobOf, Slice;
    if m.shards > 1 {
      var shard := Shard(n, m.shards);
      if f in Names(m.sources) {
        SliceHoldsItsFiles(m.sources, shard, le, name, f);
      } else {
        OnlySourcesInSlices(m.sources, shard, le, name, f);
      }
    }
  }

  lemma OnlySourcesInSlices(files: seq<Weighed>, shard: Shard, le: (File, File) -> bool, name: (File, File) -> bool,
                            f: File)
    requires ParsedShard(shard) && TotalPreorder(le) && TotalPreorder(name) && f !in Names(files)
    ensures f !in Slice(files, shard, le, name)
  {
    hide TotalPreorder, FilesIn, Names;
    var weighed := Sort(files, LargestFirst(le));
    var assign := Greedy(Sizes(weighed), shard.count);
    NamesOfPermutation(weighed, files);
    SliceIsBin(files, shard, le, name);
    SamePermutation(Slice(files, shard, le, name), FilesIn(weighed, assign, shard.index - 1));
    if f in FilesIn(weighed, assign, shard.index - 1) {
      OnlyNamedFiles(weighed, assign, shard.index - 1, f);
    }
  }

  /** Every source of the modules is mutated by exactly one job of the matrix, and nothing else by any. */
  lemma {:induction false} MatrixTakesOnce(reg: Registry, modules: seq<KernelModule>, f: File, le: (File, File) -> bool,
                                           name: (File, File) -> bool)
    requires TotalPreorder(le) && TotalPreorder(name) && WellOwned(reg, modules)
    ensures Takers(Workload(AllJobs(modules), le, name), f) ==
            if exists m :: m in modules && f in Names(m.sources) then 1 else 0
  {
    hide TotalPreorder, ListedOnce, JobOf, Names, Takers, JobFiles, WellOwned, ProperJobs, JobsOf;
    if modules == [] {
      NoTakers(f);
      assert Workload(AllJobs(modules), le, name) == [];
    } else {
      var n := |modules| - 1;
      var last := modules[n];
      OwnedParts(reg, modules);
      MatrixTakesOnce(reg, modules[..n], f, le, name);
      LastTakers(last, f, le, name);
      assert Workload(AllJobs(modules), le, name) ==
        Workload(AllJobs(modules[..n]), le, name) + Workload(JobsOf(last), le, name);
      TakersConcat(Workload(AllJobs(modules[..n]), le, name), Workload(JobsOf(last), le, name), f);
      if f in Names(last.sources) {
        forall i | 0 <= i < n
          ensures f !in Names(modules[i].sources)
        {
          OneOwner(reg, modules, i, n, f);
        }
      }
      assert forall m :: m in modules <==> m in modules[..n] || m == last;
    }
  }

  lemma OwnedParts(reg: Registry, modules: seq<KernelModule>)
    requires WellOwned(reg, modules) && modules != []
    ensures var n := |modules| - 1;
      WellOwned(reg, modules[..n]) && modules[n].shards >= 1 && ListedOnce(modules[n].sources)
  {
    hide Names;
    assert modules[|modules| - 1] in modules;
  }

  lemma LastTakers(m: KernelModule, f: File, le: (File, File) -> bool, name: (File, File) -> bool)
    requires TotalPreorder(le) && TotalPreorder(name) && m.shards >= 1 && ListedOnce(m.sources)
    ensures ProperJobs(JobsOf(m))
    ensures Takers(Workload(JobsOf(m), le, name), f) == if f in Names(m.sources) then 1 else 0
  {
    hide TotalPreorder, ListedOnce, JobOf, Names, Takers, JobFiles;
    assert JobsOf(m)[..m.shards] == JobsOf(m);
    ModuleTakers(m, m.shards, f, le, name);
    if f in Names(m.sources) {
      SliceHoldsItsFiles(m.sources, Shard(1, m.shards), le, name, f);
    }
  }

  lemma OneOwner(reg: Registry, modules: seq<KernelModule>, i: nat, j: nat, f: File)
    requires WellOwned(reg, modules) && i < j < |modules| && f in Names(modules[j].sources)
    ensures f !in Names(modules[i].sources)
  {
    hide Names, ListedOnce;
    var mine, other := modules[j], modules[i];
    assert mine in modules && other in modules && other.id != mine.id;
    assert f in Names(other.sources) ==> reg.owner(f) == Some(other.id);
  }

  lemma NoTakers(f: File)
    ensures Takers([], f) == 0
  {
  }

  /** The first of the slices that holds the file. */
  function TakerOf(slices: seq<seq<File>>, f: File): (k: nat)
    ensures k <= |slices| && (Takers(slices, f) > 0 ==> k < |slices|)
    ensures forall i :: 0 <= i < k && i < |slices| ==> f !in slices[i]
    ensures k < |slices| ==> f in slices[k]
  {
    if slices == [] then 0
    else
      var n := |slices| - 1;
      var k := TakerOf(slices[..n], f);
      assert forall i :: 0 <= i < n ==> slices[..n][i] == slices[i];
      if k < n then k else if f in slices[n] then n else n + 1
  }

  lemma {:induction false} TakenTwice(slices: seq<seq<File>>, f: File, i: nat, j: nat)
    requires i < j < |slices| && f in slices[i] && f in slices[j]
    ensures Takers(slices, f) >= 2
  {
    var n := |slices| - 1;
    if j < n {
      TakenTwice(slices[..n], f, i, j);
    } else {
      TakenAtLeastOnce(slices[..n], f, i);
    }
  }

  lemma {:induction false} TakenAtLeastOnce(slices: seq<seq<File>>, f: File, i: nat)
    requires i < |slices| && f in slices[i]
    ensures Takers(slices, f) >= 1
  {
    var n := |slices| - 1;
    if i < n {
      TakenAtLeastOnce(slices[..n], f, i);
    }
  }

  lemma OnlyTaker(slices: seq<seq<File>>, f: File, i: nat)
    requires Takers(slices, f) == 1 && i < |slices|
    ensures f in slices[i] <==> i == TakerOf(slices, f)
  {
    var k := TakerOf(slices, f);
    if f in slices[i] && k < i {
      TakenTwice(slices, f, k, i);
    }
  }

  /** Each job reported, for the files it mutates, what an unsharded run would report. */
  ghost predicate RanOnJobs(shards: seq<Report>, report: Report, jobs: seq<Job>, le: (File, File) -> bool,
                            name: (File, File) -> bool)
    requires TotalPreorder(le) && TotalPreorder(name) && ProperJobs(jobs)
    requires forall f :: f in report.order ==> f in report.files
  {
    |shards| == |jobs| && forall k :: 0 <= k < |shards| ==>
      shards[k] == PartOn(report.files, report.order, Workload(jobs, le, name)[k])
  }

  lemma JobsAreShards(shards: seq<Report>, report: Report, slices: seq<seq<File>>, slot: File -> nat)
    requires |shards| == |slices|
    requires forall f :: f in report.order ==> f in report.files && Takers(slices, f) == 1
    requires forall f :: f in report.order ==> slot(f) == TakerOf(slices, f)
    requires forall k :: 0 <= k < |shards| ==> shards[k] == PartOn(report.files, report.order, slices[k])
    ensures AreShardsOf(shards, report, slot, |slices|)
    ensures forall f :: f in report.order ==> slot(f) < |slices|
  {
    hide TakerOf, Takers, PartOn, ShardReport;
    forall k | 0 <= k < |slices|
      ensures shards[k] == ShardReport(report.files, report.order, slot, k)
    {
      forall f | f in report.order
        ensures f in slices[k] <==> slot(f) == k
      {
        OnlyTaker(slices, f, k);
      }
      PartIsShardReport(report.files, report.order, slices[k], slot, k);
    }
  }

  /** Every file the unsharded run reports on is a source of a selected module. */
  ghost predicate Covers(modules: seq<KernelModule>, ids: seq<ModuleId>, report: Report) {
    forall f :: f in report.order ==> exists m :: m in modules && m.id in ids && f in Names(m.sources)
  }

  lemma SelectedIsOwned(reg: Registry, modules: seq<KernelModule>, ids: seq<ModuleId>)
    requires WellOwned(reg, modules)
    ensures WellOwned(reg, Selected(modules, ids))
  {
    hide ListedOnce, Names;
    SelectedDistinct(modules, ids);
  }

  lemma {:induction false} SelectedDistinct(modules: seq<KernelModule>, ids: seq<ModuleId>)
    requires forall i, j :: 0 <= i < j < |modules| ==> modules[i].id != modules[j].id
    ensures forall i, j :: 0 <= i < j < |Selected(modules, ids)| ==>
      Selected(modules, ids)[i].id != Selected(modules, ids)[j].id
  {
    if modules != [] {
      var n := |modules| - 1;
      SelectedDistinct(modules[..n], ids);
      forall m | m in Selected(modules[..n], ids)
        ensures m.id != modules[n].id
      {
        assert m in modules[..n];
      }
    }
  }

  /**
   A whole sweep: `shardMatrix` gives the jobs of the selected modules, each its own number of slices;
   every job reports on what it mutated; `mergeReports` merges the reports in whatever order they
   arrive and `summarizeReport` scores the result. The score sheet is the one an unsharded run gets.
   */
  method ScoreSweep(reg: Registry, modules: seq<KernelModule>, ids: seq<ModuleId>, ghost report: Report,
                    ghost shards: seq<Report>, arrived: seq<Report>, le: (File, File) -> bool,
                    name: (File, File) -> bool, nameLe: (string, string) -> bool)
      returns (scores: seq<ModuleScore>)
    requires TotalOrder(le) && TotalPreorder(name) && TotalOrder(nameLe)
    requires WellOwned(reg, modules) && report.Keyed() && Covers(modules, ids, report)
    requires forall f :: f in report.order ==> f in report.files
    requires RanOnJobs(shards, report, ShardMatrix(modules, ids), le, name) && multiset(arrived) == multiset(shards)
    ensures scores == Summary(reg, Flat(report.files, report.order), ids, ByPlace(le, nameLe))
    ensures TrueSheet(reg, Flat(report.files, report.order), ids, scores, le, nameLe)
  {
    hide TotalPreorder, TrueSheet, WellOwned, Summary, Flat, AreShardsOf, ProperJobs, Takers, TakerOf, AllJobs,
         JobFiles, Workload, ByPlace;
    ghost var jobs := ShardMatrix(modules, ids);
    ghost var slices := Workload(jobs, le, name);
    ghost var slot := (f: File) => TakerOf(slices, f);
    SelectedIsOwned(reg, modules, ids);
    forall f | f in report.order
      ensures Takers(slices, f) == 1
    {
      MatrixTakesOnce(reg, Selected(modules, ids), f, le, name);
    }
    JobsAreShards(shards, report, slices, slot);
    ShardsKeyed(shards, arrived, report, slot, |jobs|);
    var merged := MergeReports(arrived);
    ShardedScoresMatch(reg, report, slot, |jobs|, shards, arrived, merged, ids, ByPlace(le, nameLe));
    scores := SummarizeReport(reg, merged, ids, le, nameLe);
    SummaryIsTrue(reg, Flat(report.files, report.order), ids, le, nameLe);
  }

  lemma ShardsKeyed(shards: seq<Report>, arrived: seq<Report>, report: Report, slot: File -> nat, n: nat)
    requires report.Keyed() && AreShardsOf(shards, report, slot, n) && multiset(arrived) == multiset(shards)
    ensures forall r :: r in arrived ==> r.Keyed()
  {
    ElementsAreKeys(report);
    SamePermutation(shards, arrived);
    forall i | 0 <= i < |shards|
      ensures shards[i].Keyed()
    {
      ShardReportKeyed(report.files, report.order, slot, i);
    }
  }
}
