/** `shardFiles` in scripts/mutation/run.ts: which of a module's sources one mutation job takes. */
module Sharding {
  import opened Digraph
  import opened Sequences
  import opened Packing

  datatype Weighed = Weighed(file: File, size: nat)

  datatype Shard = Shard(index: nat, count: nat)

  /** What `parseShard` lets through. */
  predicate ParsedShard(s: Shard) {
    1 <= s.index <= s.count
  }

  /** Largest first, and by name among equals. */
  function LargestFirst(le: (File, File) -> bool): (order: (Weighed, Weighed) -> bool)
    requires TotalPreorder(le)
    ensures TotalPreorder(order)
    ensures forall a, b :: order(a, b) ==> a.size >= b.size
  {
    var order := (a: Weighed, b: Weighed) => a.size > b.size || (a.size == b.size && le(a.file, b.file));
    assert forall a, b :: order(a, b) == (a.size > b.size || (a.size == b.size && le(a.file, b.file)));
    order
  }

  function Sizes(ws: seq<Weighed>): (r: seq<nat>)
    ensures |r| == |ws| && forall i :: 0 <= i < |r| ==> r[i] == ws[i].size
  {
    seq(|ws|, i requires 0 <= i < |ws| => ws[i].size)
  }

  /** The files an assignment puts into bin `b`, in order of arrival. */
  function FilesIn(ws: seq<Weighed>, assign: seq<nat>, b: nat): seq<File>
    requires |assign| == |ws|
  {
    if ws == [] then []
    else
      var n := |ws| - 1;
      FilesIn(ws[..n], assign[..n], b) + (if assign[n] == b then [ws[n].file] else [])
  }

  /** The slice every job computes for itself: the contents of its own bin, sorted by name. */
  ghost function Slice(files: seq<Weighed>, shard: Shard, le: (File, File) -> bool,
                       name: (File, File) -> bool): seq<File>
    requires ParsedShard(shard) && TotalPreorder(le) && TotalPreorder(name)
  {
    var weighed := Sort(files, LargestFirst(le));
    Sort(FilesIn(weighed, Greedy(Sizes(weighed), shard.count), shard.index - 1), name)
  }

  /** All the files, largest first and by name among equals. */
  ghost predicate Ranked(files: seq<Weighed>, ws: seq<Weighed>, le: (File, File) -> bool) {
    && multiset(ws) == multiset(files)
    && forall i, j :: 0 <= i < j < |ws| ==>
         ws[i].size > ws[j].size || (ws[i].size == ws[j].size && le(ws[i].file, ws[j].file))
  }

  /** Item `i` went to the first of the `n` bins that were smallest when its turn came. */
  ghost predicate WentToSmallest(sizes: seq<nat>, assign: seq<nat>, n: nat, i: nat)
    requires i < |sizes| == |assign|
  {
    && assign[i] < n
    && forall b :: 0 <= b < n ==>
         Load(sizes[..i], assign[..i], assign[i]) <= Load(sizes[..i], assign[..i], b) &&
         (b < assign[i] ==> Load(sizes[..i], assign[..i], assign[i]) < Load(sizes[..i], assign[..i], b))
  }

  ghost predicate ListScheduled(sizes: seq<nat>, assign: seq<nat>, n: nat) {
    |assign| == |sizes| && forall i :: 0 <= i < |sizes| ==> WentToSmallest(sizes, assign, n, i)
  }

  /** Some ranking of the files, scheduled in that order over the jobs, gives this one the slice. */
  ghost predicate IsFairSlice(files: seq<Weighed>, shard: Shard, le: (File, File) -> bool, name: (File, File) -> bool,
                              slice: seq<File>)
    requires ParsedShard(shard)
  {
    && Sorted(slice, name)
    && exists ws, assign ::
         Ranked(files, ws, le) && ListScheduled(Sizes(ws), assign, shard.count) &&
         multiset(slice) == multiset(FilesIn(ws, assign, shard.index - 1))
  }

  lemma {:induction false} GreedySchedules(sizes: seq<nat>, n: nat)
    requires n >= 1
    ensures ListScheduled(sizes, Greedy(sizes, n), n)
  {
    if sizes != [] {
      var k, assign := |sizes| - 1, Greedy(sizes, n);
      GreedySchedules(sizes[..k], n);
      assert assign[..k] == Greedy(sizes[..k], n);
      forall i | 0 <= i < |sizes|
        ensures WentToSmallest(sizes, assign, n, i)
      {
        if i < k {
          assert WentToSmallest(sizes[..k], assign[..k], n, i);
          assert sizes[..k][..i] == sizes[..i] && assign[..k][..i] == assign[..i];
        }
      }
    }
  }

  lemma LargestFirstRanks(files: seq<Weighed>, le: (File, File) -> bool)
    requires TotalPreorder(le)
    ensures Ranked(files, Sort(files, LargestFirst(le)), le)
  {
    var ws := Sort(files, LargestFirst(le));
    forall i, j | 0 <= i < j < |ws|
      ensures ws[i].size > ws[j].size || (ws[i].size == ws[j].size && le(ws[i].file, ws[j].file))
    {
      assert LargestFirst(le)(ws[i], ws[j]);
    }
  }

  lemma SliceIsFair(files: seq<Weighed>, shard: Shard, le: (File, File) -> bool, name: (File, File) -> bool)
    requires ParsedShard(shard) && TotalPreorder(le) && TotalPreorder(name)
    ensures IsFairSlice(files, shard, le, name, Slice(files, shard, le, name))
  {
    hide TotalPreorder, FilesIn, Greedy, Sort, Ranked, ListScheduled, Sorted;
    var ws := Sort(files, LargestFirst(le));
    LargestFirstRanks(files, le);
    GreedySchedules(Sizes(ws), shard.count);
  }

  class Bin {
    var size: nat
    var files: seq<File>

    constructor ()
      ensures size == 0 && files == []
    {
      size, files := 0, [];
    }
  }

  /** The bins hold what the assignment built so far puts into them. */
  ghost predicate Filled(bins: seq<Bin>, ws: seq<Weighed>, assign: seq<nat>)
    reads bins
  {
    && Distinct(bins) && |assign| == |ws|
    && forall b :: 0 <= b < |bins| ==>
         bins[b].size == Load(Sizes(ws), assign, b) && bins[b].files == FilesIn(ws, assign, b)
  }

  /** The `reduce` that picks the first bin of smallest size. */
  method SmallestBin(bins: seq<Bin>, ghost sizes: seq<nat>, ghost assign: seq<nat>) returns (b: nat)
    requires bins != [] && |assign| == |sizes|
    requires forall k :: 0 <= k < |bins| ==> bins[k].size == Load(sizes, assign, k)
    ensures b < |bins| && b == FirstSmallest(sizes, assign, |bins|)
  {
    b := 0;
    for k := 1 to |bins|
      invariant b < k && b == FirstSmallest(sizes, assign, k)
    {
      if bins[k].size < bins[b].size {
        b := k;
      }
    }
  }

  lemma PlaceKeeps(ws: seq<Weighed>, assign: seq<nat>, w: Weighed, c: nat)
    requires |assign| == |ws|
    ensures forall b ::
              Load(Sizes(ws + [w]), assign + [c], b) == Load(Sizes(ws), assign, b) + (if c == b then w.size else 0)
    ensures forall b :: FilesIn(ws + [w], assign + [c], b) == FilesIn(ws, assign, b) + (if c == b then [w.file] else [])
  {
    assert Sizes(ws + [w]) == Sizes(ws) + [w.size];
    LoadStep(Sizes(ws), assign, w.size, c);
    assert (ws + [w])[..|ws|] == ws && (assign + [c])[..|assign|] == assign;
  }

  /** One turn of the packing loop: the next file goes into the first smallest bin. */
  method Place(bins: seq<Bin>, w: Weighed, ghost ws: seq<Weighed>, ghost assign: seq<nat>) returns (ghost c: nat)
    requires bins != [] && Filled(bins, ws, assign)
    modifies bins
    ensures c == FirstSmallest(Sizes(ws), assign, |bins|)
    ensures Filled(bins, ws + [w], assign + [c])
  {
    var b := SmallestBin(bins, Sizes(ws), assign);
    PlaceKeeps(ws, assign, w, b);
    bins[b].files := bins[b].files + [w.file];
    bins[b].size := bins[b].size + w.size;
    c := b;
  }

  method PackAll(bins: seq<Bin>, weighed: seq<Weighed>)
    requires bins != [] && Filled(bins, [], [])
    modifies bins
    ensures Filled(bins, weighed, Greedy(Sizes(weighed), |bins|))
  {
    hide Load, FilesIn, Distinct;
    ghost var assign: seq<nat> := [];
    for i := 0 to |weighed|
      invariant Filled(bins, weighed[..i], assign)
      invariant assign == Greedy(Sizes(weighed[..i]), |bins|)
    {
      GreedyAdvances(weighed, i, |bins|);
      ghost var c := Place(bins, weighed[i], weighed[..i], assign);
      assign := assign + [c];
    }
    assert weighed[..|weighed|] == weighed;
  }

  method EmptyBins(count: nat) returns (bins: seq<Bin>)
    ensures fresh(bins) && |bins| == count && Filled(bins, [], [])
  {
    hide Load, FilesIn, Distinct;
    bins := [];
    NoBins();
    for k := 0 to count
      invariant |bins| == k && Filled(bins, [], [])
      invariant fresh(bins)
    {
      var bin := new Bin();
      AppendDistinct(bins, bin);
      bins := bins + [bin];
    }
  }

  method ShardFiles(files: seq<Weighed>, shard: Shard, le: (File, File) -> bool, name: (File, File) -> bool)
      returns (slice: seq<File>)
    requires ParsedShard(shard) && TotalPreorder(le) && TotalPreorder(name)
    ensures slice == Slice(files, shard, le, name)
    ensures IsFairSlice(files, shard, le, name, slice)
  {
    hide TotalPreorder, Load, FilesIn, Distinct, Greedy, Sort, IsFairSlice;
    SliceIsFair(files, shard, le, name);
    var bins := EmptyBins(shard.count);
    var weighed := Sort(files, LargestFirst(le));
    PackAll(bins, weighed);
    slice := Sort(bins[shard.index - 1].files, name);
  }

  lemma NoBins()
    ensures Distinct<Bin>([]) && forall b :: Load([], [], b) == 0 && FilesIn([], [], b) == []
    ensures Sizes([]) == []
  {
  }

  lemma GreedyAdvances(weighed: seq<Weighed>, i: nat, n: nat)
    requires i < |weighed| && n >= 1
    ensures weighed[..i + 1] == weighed[..i] + [weighed[i]]
    ensures var sizes := Sizes(weighed[..i]);
      Greedy(Sizes(weighed[..i + 1]), n) == Greedy(sizes, n) + [FirstSmallest(sizes, Greedy(sizes, n), n)]
  {
    assert Sizes(weighed[..i + 1])[..i] == Sizes(weighed[..i]);
  }

  // ---- what the slices have in common ----

  ghost function Names(ws: seq<Weighed>): multiset<File> {
    if ws == [] then multiset{} else Names(ws[..|ws| - 1]) + multiset{ws[|ws| - 1].file}
  }

  ghost function BinsUpTo(ws: seq<Weighed>, assign: seq<nat>, n: nat): multiset<File>
    requires |assign| == |ws|
  {
    if n == 0 then multiset{} else BinsUpTo(ws, assign, n - 1) + multiset(FilesIn(ws, assign, n - 1))
  }

  lemma FilesInGrow(ws: seq<Weighed>, assign: seq<nat>, b: nat)
    requires |assign| == |ws| > 0
    ensures var k := |ws| - 1;
      multiset(FilesIn(ws, assign, b)) ==
        multiset(FilesIn(ws[..k], assign[..k], b)) + (if assign[k] == b then multiset{ws[k].file} else multiset{})
  {
  }

  lemma {:induction false} BinsGrow(ws: seq<Weighed>, assign: seq<nat>, n: nat)
    requires |assign| == |ws| > 0
    ensures var k := |ws| - 1;
      BinsUpTo(ws, assign, n) ==
        BinsUpTo(ws[..k], assign[..k], n) + (if assign[k] < n then multiset{ws[k].file} else multiset{})
  {
    hide FilesIn;
    if n > 0 {
      BinsGrow(ws, assign, n - 1);
      FilesInGrow(ws, assign, n - 1);
    }
  }

  lemma {:induction false} NoFilesNoBins(assign: seq<nat>, n: nat)
    requires assign == []
    ensures BinsUpTo([], assign, n) == multiset{}
  {
    if n > 0 {
      NoFilesNoBins(assign, n - 1);
    }
  }

  lemma {:induction false} BinsPartition(ws: seq<Weighed>, assign: seq<nat>, n: nat)
    requires |assign| == |ws| && forall i :: 0 <= i < |assign| ==> assign[i] < n
    ensures BinsUpTo(ws, assign, n) == Names(ws)
  {
    if ws == [] {
      NoFilesNoBins(assign, n);
    } else {
      BinsGrow(ws, assign, n);
      BinsPartition(ws[..|ws| - 1], assign[..|ws| - 1], n);
    }
  }

  /** All the jobs' slices taken together. */
  ghost function AllSlices(files: seq<Weighed>, count: nat, upTo: nat, le: (File, File) -> bool,
                           name: (File, File) -> bool): multiset<File>
    requires upTo <= count && TotalPreorder(le) && TotalPreorder(name)
  {
    if upTo == 0 then multiset{}
    else AllSlices(files, count, upTo - 1, le, name) + multiset(Slice(files, Shard(upTo, count), le, name))
  }

  lemma SliceIsBin(files: seq<Weighed>, shard: Shard, le: (File, File) -> bool, name: (File, File) -> bool)
    requires ParsedShard(shard) && TotalPreorder(le) && TotalPreorder(name)
    ensures var weighed := Sort(files, LargestFirst(le));
      multiset(Slice(files, shard, le, name)) ==
        multiset(FilesIn(weighed, Greedy(Sizes(weighed), shard.count), shard.index - 1))
  {
    hide Greedy, FilesIn, TotalPreorder, Sorted;
  }

  lemma {:induction false} SlicesAreBins(files: seq<Weighed>, count: nat, upTo: nat, le: (File, File) -> bool,
                                         name: (File, File) -> bool)
    requires 1 <= count && upTo <= count && TotalPreorder(le) && TotalPreorder(name)
    ensures var weighed := Sort(files, LargestFirst(le));
      AllSlices(files, count, upTo, le, name) == BinsUpTo(weighed, Greedy(Sizes(weighed), count), upTo)
  {
    hide Greedy, FilesIn, Slice, TotalPreorder;
    if upTo > 0 {
      SliceIsBin(files, Shard(upTo, count), le, name);
      SlicesAreBins(files, count, upTo - 1, le, name);
    }
  }

  lemma {:induction false} NamesOfPermutation(a: seq<Weighed>, b: seq<Weighed>)
    requires multiset(a) == multiset(b)
    ensures Names(a) == Names(b)
  {
    SamePermutation(a, b);
    if a != [] {
      var k := MatchLast(a, b);
      NamesOfPermutation(a[..|a| - 1], b[..k] + b[k + 1..]);
      NamesOfSplit(b, k);
    }
  }

  lemma {:induction false} NamesOfSplit(b: seq<Weighed>, k: nat)
    requires k < |b|
    ensures Names(b) == Names(b[..k] + b[k + 1..]) + multiset{b[k].file}
  {
    var n := |b| - 1;
    var rest := b[..k] + b[k + 1..];
    if k == n {
      assert rest == b[..n];
    } else {
      NamesOfSplit(b[..n], k);
      RemoveBeforeLast(b, k);
    }
  }

  /** Every source is mutated by exactly one of the `count` jobs, as often as it was listed. */
  lemma SlicesPartitionTheSources(files: seq<Weighed>, count: nat, le: (File, File) -> bool, name: (File, File) -> bool)
    requires count >= 1 && TotalPreorder(le) && TotalPreorder(name)
    ensures AllSlices(files, count, count, le, name) == Names(files)
  {
    var weighed := Sort(files, LargestFirst(le));
    SlicesAreBins(files, count, count, le, name);
    BinsPartition(weighed, Greedy(Sizes(weighed), count), count);
    NamesOfPermutation(weighed, files);
  }

  // ---- the slowest job ----

  function TotalSize(sizeOf: File -> nat, files: seq<File>): nat {
    if files == [] then 0 else TotalSize(sizeOf, files[..|files| - 1]) + sizeOf(files[|files| - 1])
  }

  lemma {:induction false} TotalSizeOfSplit(sizeOf: File -> nat, b: seq<File>, k: nat)
    requires k < |b|
    ensures TotalSize(sizeOf, b) == TotalSize(sizeOf, b[..k] + b[k + 1..]) + sizeOf(b[k])
  {
    var n := |b| - 1;
    if k == n {
      assert b[..k] + b[k + 1..] == b[..n];
    } else {
      TotalSizeOfSplit(sizeOf, b[..n], k);
      RemoveBeforeLast(b, k);
    }
  }

  lemma {:induction false} TotalSizeOfPermutation(sizeOf: File -> nat, a: seq<File>, b: seq<File>)
    requires multiset(a) == multiset(b)
    ensures TotalSize(sizeOf, a) == TotalSize(sizeOf, b)
  {
    SamePermutation(a, b);
    if a != [] {
      var k := MatchLast(a, b);
      TotalSizeOfPermutation(sizeOf, a[..|a| - 1], b[..k] + b[k + 1..]);
      TotalSizeOfSplit(sizeOf, b, k);
    }
  }

  ghost predicate Measured(ws: seq<Weighed>, sizeOf: File -> nat) {
    forall w :: w in ws ==> w.size == sizeOf(w.file)
  }

  lemma {:induction false} LoadIsTotalSize(ws: seq<Weighed>, assign: seq<nat>, b: nat, sizeOf: File -> nat)
    requires |assign| == |ws| && Measured(ws, sizeOf)
    ensures Load(Sizes(ws), assign, b) == TotalSize(sizeOf, FilesIn(ws, assign, b))
  {
    if ws == [] {
      assert Sizes(ws) == [];
    } else {
      var n := |ws| - 1;
      LoadIsTotalSize(ws[..n], assign[..n], b, sizeOf);
      assert Sizes(ws)[..n] == Sizes(ws[..n]);
      assert ws[n] in ws;
      var before := FilesIn(ws[..n], assign[..n], b);
      assert (before + [ws[n].file])[..|before|] == before && before + [] == before;
      LoadOfLast(Sizes(ws), assign, b);
    }
  }

  lemma {:induction false} LoadOfSplit(sizes: seq<nat>, assign: seq<nat>, k: nat, b: nat)
    requires |assign| == |sizes| && k < |sizes|
    ensures Load(sizes, assign, b) ==
            Load(sizes[..k] + sizes[k + 1..], assign[..k] + assign[k + 1..], b) +
              (if assign[k] == b then sizes[k] else 0)
  {
    var n := |sizes| - 1;
    if k == n {
      assert sizes[..k] + sizes[k + 1..] == sizes[..n] && assign[..k] + assign[k + 1..] == assign[..n];
    } else {
      LoadOfSplit(sizes[..n], assign[..n], k, b);
      RemoveBeforeLast(sizes, k);
      RemoveBeforeLast(assign, k);
    }
  }

  lemma LoadOfLast(sizes: seq<nat>, assign: seq<nat>, b: nat)
    requires |assign| == |sizes| > 0
    ensures var n := |sizes| - 1;
      Load(sizes, assign, b) == Load(sizes[..n], assign[..n], b) + (if assign[n] == b then sizes[n] else 0)
  {
  }

  /** A way of splitting a list splits every rearrangement of it just as well. */
  lemma {:induction false} MoveAssignment(ws: seq<Weighed>, vs: seq<Weighed>, assign: seq<nat>)
      returns (moved: seq<nat>)
    requires multiset(ws) == multiset(vs) && |assign| == |ws|
    ensures |moved| == |vs| && multiset(moved) == multiset(assign)
    ensures forall b :: Load(Sizes(vs), moved, b) == Load(Sizes(ws), assign, b)
  {
    hide Load;
    SamePermutation(ws, vs);
    if ws == [] {
      moved := [];
      assert Sizes(ws) == [] && Sizes(vs) == [];
    } else {
      var n := |ws| - 1;
      var k := MatchLast(ws, vs);
      var rest := MoveAssignment(ws[..n], vs[..k] + vs[k + 1..], assign[..n]);
      moved := rest[..k] + [assign[n]] + rest[k..];
      assert moved[..k] + moved[k + 1..] == rest;
      assert Sizes(vs)[..k] + Sizes(vs)[k + 1..] == Sizes(vs[..k] + vs[k + 1..]);
      assert Sizes(ws)[..n] == Sizes(ws[..n]);
      forall b
        ensures Load(Sizes(vs), moved, b) == Load(Sizes(ws), assign, b)
      {
        LoadOfSplit(Sizes(vs), moved, k, b);
        LoadOfLast(Sizes(ws), assign, b);
      }
      RemoveAt(moved, k);
      DropLast(assign);
    }
  }

  lemma LargestFirstDescends(files: seq<Weighed>, le: (File, File) -> bool)
    requires TotalPreorder(le)
    ensures Descending(Sizes(Sort(files, LargestFirst(le))))
  {
    var weighed := Sort(files, LargestFirst(le));
    assert Descending(Sizes(weighed)) by {
      forall i, j | 0 <= i < j < |weighed|
        ensures Sizes(weighed)[i] >= Sizes(weighed)[j]
      {
        assert LargestFirst(le)(weighed[i], weighed[j]);
      }
    }
  }

  lemma MoveWithin(ws: seq<Weighed>, vs: seq<Weighed>, assign: seq<nat>, n: nat, limit: nat) returns (moved: seq<nat>)
    requires multiset(ws) == multiset(vs) && Within(Sizes(ws), assign, n, limit)
    ensures Within(Sizes(vs), moved, n, limit)
  {
    hide Load;
    moved := MoveAssignment(ws, vs, assign);
    SamePermutation(assign, moved);
    forall i | 0 <= i < |moved|
      ensures moved[i] < n
    {
      assert moved[i] in assign;
    }
  }

  /**
   No job gets more than Graham's bound allows: its slice weighs at most 4/3 - 1/(3n) of what any other
   split of the sources needs.
   */
  lemma SlowestJobBound(files: seq<Weighed>, shard: Shard, le: (File, File) -> bool, name: (File, File) -> bool,
                        sizeOf: File -> nat, other: seq<nat>, limit: nat)
    requires ParsedShard(shard) && TotalPreorder(le) && TotalPreorder(name) && Measured(files, sizeOf)
    requires Within(Sizes(files), other, shard.count, limit)
    ensures 3 * shard.count * TotalSize(sizeOf, Slice(files, shard, le, name)) <= (4 * shard.count - 1) * limit
  {
    hide TotalPreorder, Load, FilesIn, TotalSize, Greedy, Sorted, Slice, Within, Descending;
    var weighed := Sort(files, LargestFirst(le));
    var assign := Greedy(Sizes(weighed), shard.count);
    var moved := MoveWithin(files, weighed, other, shard.count, limit);
    LargestFirstDescends(files, le);
    LongestFirstBound(Sizes(weighed), moved, shard.count, limit, shard.index - 1);
    SamePermutation(files, weighed);
    LoadIsTotalSize(weighed, assign, shard.index - 1, sizeOf);
    SliceIsBin(files, shard, le, name);
    TotalSizeOfPermutation(sizeOf, Slice(files, shard, le, name), FilesIn(weighed, assign, shard.index - 1));
  }
}
