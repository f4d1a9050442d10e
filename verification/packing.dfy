/**
 Greedy packing of sizes into bins, and Graham's bounds for it. The functions here are the
 specification of `shardFiles` in scripts/mutation/run.ts; sharding.dfy proves the loop against it.
 */
module Packing {

  /** Total size an assignment of items to bins puts into bin `b`. */
  function Load(sizes: seq<nat>, assign: seq<nat>, b: nat): nat
    requires |assign| == |sizes|
  {
    if sizes == [] then 0
    else
      var n := |sizes| - 1;
      Load(sizes[..n], assign[..n], b) + (if assign[n] == b then sizes[n] else 0)
  }

  /** The first of the bins `0..n` with the smallest load. */
  function FirstSmallest(sizes: seq<nat>, assign: seq<nat>, n: nat): (b: nat)
    requires |assign| == |sizes| && n >= 1
    ensures b < n
    ensures forall c :: 0 <= c < n ==> Load(sizes, assign, b) <= Load(sizes, assign, c)
    ensures forall c :: 0 <= c < b ==> Load(sizes, assign, b) < Load(sizes, assign, c)
  {
    if n == 1 then 0
    else
      var b := FirstSmallest(sizes, assign, n - 1);
      if Load(sizes, assign, n - 1) < Load(sizes, assign, b) then n - 1 else b
  }

  /** Each item in turn goes to the first smallest bin. */
  function Greedy(sizes: seq<nat>, n: nat): (assign: seq<nat>)
    requires n >= 1
    ensures |assign| == |sizes| && forall i :: 0 <= i < |assign| ==> assign[i] < n
  {
    if sizes == [] then []
    else
      var rest := sizes[..|sizes| - 1];
      Greedy(rest, n) + [FirstSmallest(rest, Greedy(rest, n), n)]
  }

  ghost predicate Assignment(assign: seq<nat>, sizes: seq<nat>, n: nat) {
    |assign| == |sizes| && forall i :: 0 <= i < |assign| ==> assign[i] < n
  }

  /** No bin is heavier than `limit`. */
  ghost predicate Within(sizes: seq<nat>, assign: seq<nat>, n: nat, limit: nat) {
    Assignment(assign, sizes, n) && forall b :: 0 <= b < n ==> Load(sizes, assign, b) <= limit
  }

  /** Every bin already holds at least `low`. */
  ghost predicate AllAtLeast(sizes: seq<nat>, assign: seq<nat>, n: nat, low: int) {
    Assignment(assign, sizes, n) && forall b :: 0 <= b < n ==> low <= Load(sizes, assign, b)
  }

  ghost predicate Descending(sizes: seq<nat>) {
    forall i, j :: 0 <= i < j < |sizes| ==> sizes[i] >= sizes[j]
  }

  // ---- sums over bins ----

  ghost function Sum(sizes: seq<nat>): nat {
    if sizes == [] then 0 else Sum(sizes[..|sizes| - 1]) + sizes[|sizes| - 1]
  }

  ghost function BinTotal(sizes: seq<nat>, assign: seq<nat>, n: nat): nat
    requires |assign| == |sizes|
  {
    if n == 0 then 0 else BinTotal(sizes, assign, n - 1) + Load(sizes, assign, n - 1)
  }

  lemma {:induction false} BinTotalGrows(sizes: seq<nat>, assign: seq<nat>, n: nat)
    requires |assign| == |sizes| > 0
    ensures var k := |sizes| - 1;
      BinTotal(sizes, assign, n) == BinTotal(sizes[..k], assign[..k], n) + (if assign[k] < n then sizes[k] else 0)
  {
    if n > 0 {
      BinTotalGrows(sizes, assign, n - 1);
    }
  }

  lemma {:induction false} BinTotalEmpty(assign: seq<nat>, n: nat)
    requires assign == []
    ensures BinTotal([], assign, n) == 0
  {
    if n > 0 {
      BinTotalEmpty(assign, n - 1);
    }
  }

  /** Nothing is lost or counted twice: the bins together hold the total size. */
  lemma {:induction false} BinsHoldEverything(sizes: seq<nat>, assign: seq<nat>, n: nat)
    requires Assignment(assign, sizes, n)
    ensures BinTotal(sizes, assign, n) == Sum(sizes)
  {
    if sizes == [] {
      BinTotalEmpty(assign, n);
    } else {
      BinTotalGrows(sizes, assign, n);
      BinsHoldEverything(sizes[..|sizes| - 1], assign[..|sizes| - 1], n);
    }
  }

  lemma {:induction false} BinTotalAtMost(sizes: seq<nat>, assign: seq<nat>, n: nat, limit: nat)
    requires |assign| == |sizes| && forall b :: 0 <= b < n ==> Load(sizes, assign, b) <= limit
    ensures BinTotal(sizes, assign, n) <= n * limit
  {
    if n > 0 {
      BinTotalAtMost(sizes, assign, n - 1, limit);
      assert n * limit == (n - 1) * limit + limit;
    }
  }

  lemma {:induction false} BinTotalAtLeast(sizes: seq<nat>, assign: seq<nat>, n: nat, limit: nat)
    requires |assign| == |sizes| && forall b :: 0 <= b < n ==> Load(sizes, assign, b) >= limit
    ensures BinTotal(sizes, assign, n) >= n * limit
  {
    if n > 0 {
      BinTotalAtLeast(sizes, assign, n - 1, limit);
      assert n * limit == (n - 1) * limit + limit;
    }
  }

  lemma PrefixWithin(sizes: seq<nat>, assign: seq<nat>, n: nat, limit: nat)
    requires Within(sizes, assign, n, limit) && sizes != []
    ensures Within(sizes[..|sizes| - 1], assign[..|sizes| - 1], n, limit)
  {
    var k := |sizes| - 1;
    forall b | 0 <= b < n
      ensures Load(sizes[..k], assign[..k], b) <= limit
    {
      assert Load(sizes, assign, b) <= limit;
    }
  }

  /** Any single item fits under the makespan of any assignment. */
  lemma ItemFits(sizes: seq<nat>, assign: seq<nat>, n: nat, limit: nat)
    requires Within(sizes, assign, n, limit) && sizes != []
    ensures sizes[|sizes| - 1] <= limit
  {
    assert Load(sizes, assign, assign[|sizes| - 1]) <= limit;
  }

  /** The smallest bin before the last item is placed is at most the average of what is left. */
  lemma SmallestIsBelowAverage(sizes: seq<nat>, mine: seq<nat>, other: seq<nat>, n: nat, low: nat, limit: nat)
    requires sizes != [] && n >= 1 && Within(sizes, other, n, limit)
    requires AllAtLeast(sizes[..|sizes| - 1], mine, n, low)
    ensures n * low + sizes[|sizes| - 1] <= n * limit
  {
    var rest := sizes[..|sizes| - 1];
    BinTotalAtLeast(rest, mine, n, low);
    BinsHoldEverything(rest, mine, n);
    BinsHoldEverything(sizes, other, n);
    BinTotalAtMost(sizes, other, n, limit);
  }

  // ---- list scheduling, any order ----

  /** Loads after one more item. */
  lemma LoadStep(sizes: seq<nat>, assign: seq<nat>, x: nat, c: nat)
    requires |assign| == |sizes|
    ensures forall b :: Load(sizes + [x], assign + [c], b) == Load(sizes, assign, b) + (if c == b then x else 0)
  {
  }

  /** What the last item changes. */
  lemma GreedyLoad(sizes: seq<nat>, n: nat, b: nat)
    requires sizes != [] && n >= 1
    ensures var rest := sizes[..|sizes| - 1];
      Load(sizes, Greedy(sizes, n), b) == Load(rest, Greedy(rest, n), b) +
        (if FirstSmallest(rest, Greedy(rest, n), n) == b then sizes[|sizes| - 1] else 0)
  {
    assert Greedy(sizes, n)[..|sizes| - 1] == Greedy(sizes[..|sizes| - 1], n);
  }

  /** In any order, greedy packing stays within (2 - 1/n) of every other assignment. */
  lemma {:induction false} ListSchedulingBound(sizes: seq<nat>, other: seq<nat>, n: nat, limit: nat, b: nat)
    requires n >= 1 && b < n && Within(sizes, other, n, limit)
    ensures n * Load(sizes, Greedy(sizes, n), b) <= (2 * n - 1) * limit
  {
    if sizes == [] {
      ListArithmetic(n, 0, 0, limit);
    } else {
      hide Load, Greedy, Within;
      var k := |sizes| - 1;
      var rest, mine := sizes[..k], Greedy(sizes[..k], n);
      GreedyLoad(sizes, n, b);
      if FirstSmallest(rest, mine, n) == b {
        SmallestIsBelowAverage(sizes, mine, other, n, Load(rest, mine, b), limit);
        ItemFits(sizes, other, n, limit);
        ListArithmetic(n, Load(rest, mine, b), sizes[k], limit);
      } else {
        PrefixWithin(sizes, other, n, limit);
        ListSchedulingBound(rest, other[..k], n, limit, b);
      }
    }
  }

  lemma ListArithmetic(n: nat, low: nat, p: nat, limit: nat)
    requires n >= 1 && n * low + p <= n * limit && p <= limit
    ensures n * (low + p) <= (2 * n - 1) * limit
  {
  }

  lemma GrahamArithmetic(n: nat, low: nat, p: nat, limit: nat)
    requires n >= 1 && n * low + p <= n * limit && 3 * p <= limit
    ensures 3 * n * (low + p) <= (4 * n - 1) * limit
  {
  }

  lemma RoomArithmetic(n: nat, load: nat, limit: nat)
    requires n >= 1 && load <= limit
    ensures 3 * n * load <= (4 * n - 1) * limit
  {
  }

  /** At every moment any two bins differ by at most the largest item. */
  lemma {:induction false} BinsStayBalanced(sizes: seq<nat>, n: nat, largest: nat, b: nat, c: nat)
    requires n >= 1 && b < n && c < n && forall i :: 0 <= i < |sizes| ==> sizes[i] <= largest
    ensures Load(sizes, Greedy(sizes, n), b) <= Load(sizes, Greedy(sizes, n), c) + largest
  {
    if sizes != [] {
      var k := |sizes| - 1;
      assert Greedy(sizes, n)[..k] == Greedy(sizes[..k], n);
      BinsStayBalanced(sizes[..k], n, largest, b, c);
    }
  }

  // ---- Graham's bound for descending sizes ----

  /** An item too big to share a bin with an item of size `p` under `limit` counts twice. */
  ghost function Weights(sizes: seq<nat>, p: nat, limit: nat): (w: seq<nat>)
    ensures |w| == |sizes| && forall i :: 0 <= i < |w| ==> w[i] == if sizes[i] + p > limit then 2 else 1
  {
    seq(|sizes|, i requires 0 <= i < |sizes| => if sizes[i] + p > limit then 2 else 1)
  }

  /** A bin that leaves no room for `p` weighs at least two. */
  lemma {:induction false} FullBinWeighsTwo(sizes: seq<nat>, assign: seq<nat>, b: nat, p: nat, limit: nat)
    requires |assign| == |sizes| && p <= limit
    ensures var w := Load(Weights(sizes, p, limit), assign, b);
      && (w == 0 ==> Load(sizes, assign, b) == 0)
      && (w == 1 ==> Load(sizes, assign, b) + p <= limit)
  {
    if sizes != [] {
      var k := |sizes| - 1;
      FullBinWeighsTwo(sizes[..k], assign[..k], b, p, limit);
      assert Weights(sizes, p, limit)[..k] == Weights(sizes[..k], p, limit);
    }
  }

  /** When three items of size `p` overflow, a bin within the limit weighs at most two. */
  lemma {:induction false} FittingBinWeighsTwo(sizes: seq<nat>, assign: seq<nat>, b: nat, p: nat, limit: nat)
    requires |assign| == |sizes| && 3 * p > limit && forall i :: 0 <= i < |sizes| ==> sizes[i] >= p
    ensures var w := Load(Weights(sizes, p, limit), assign, b);
      && (w >= 1 ==> Load(sizes, assign, b) >= p)
      && (w >= 2 ==> Load(sizes, assign, b) + p > limit)
      && (w >= 3 ==> Load(sizes, assign, b) > limit)
  {
    if sizes != [] {
      var k := |sizes| - 1;
      FittingBinWeighsTwo(sizes[..k], assign[..k], b, p, limit);
      assert Weights(sizes, p, limit)[..k] == Weights(sizes[..k], p, limit);
    }
  }

  /**
   The heart of the bound: if the last and smallest item, of size `p`, fits nowhere, then three items
   of its size fit under the limit. Otherwise every bin of the other assignment weighs at most two,
   every bin of ours already weighs two, and the last item is one too many.
   */
  lemma OverflowMeansSmall(sizes: seq<nat>, mine: seq<nat>, other: seq<nat>, n: nat, limit: nat)
    requires sizes != [] && n >= 1 && Descending(sizes) && Within(sizes, other, n, limit)
    requires AllAtLeast(sizes[..|sizes| - 1], mine, n, limit - sizes[|sizes| - 1] + 1)
    ensures 3 * sizes[|sizes| - 1] <= limit
  {
    var k := |sizes| - 1;
    var p, rest := sizes[k], sizes[..k];
    if 3 * p > limit {
      ItemFits(sizes, other, n, limit);
      var w := Weights(sizes, p, limit);
      assert w[..k] == Weights(rest, p, limit);
      forall b | 0 <= b < n
        ensures Load(w, other, b) <= 2 && Load(w[..k], mine, b) >= 2
      {
        FittingBinWeighsTwo(sizes, other, b, p, limit);
        FullBinWeighsTwo(rest, mine, b, p, limit);
      }
      BinTotalAtMost(w, other, n, 2);
      BinTotalAtLeast(w[..k], mine, n, 2);
      BinsHoldEverything(w, other, n);
      BinsHoldEverything(w[..k], mine, n);
    }
  }

  /**
   Graham's bound: longest-first packing is within (4/3 - 1/(3n)) of every other assignment,
   in particular of the best one. Stated without division.
   */
  lemma {:induction false} LongestFirstBound(sizes: seq<nat>, other: seq<nat>, n: nat, limit: nat, b: nat)
    requires n >= 1 && b < n && Descending(sizes) && Within(sizes, other, n, limit)
    ensures 3 * n * Load(sizes, Greedy(sizes, n), b) <= (4 * n - 1) * limit
  {
    if sizes == [] {
      RoomArithmetic(n, 0, limit);
    } else {
      var k := |sizes| - 1;
      var rest, mine := sizes[..k], Greedy(sizes[..k], n);
      GreedyLoad(sizes, n, b);
      if FirstSmallest(rest, mine, n) == b {
        LastItemBound(sizes, mine, other, n, limit, Load(rest, mine, b));
      } else {
        PrefixWithin(sizes, other, n, limit);
        LongestFirstBound(rest, other[..k], n, limit, b);
      }
    }
  }

  lemma LastItemBound(sizes: seq<nat>, mine: seq<nat>, other: seq<nat>, n: nat, limit: nat, low: nat)
    requires sizes != [] && n >= 1 && Descending(sizes) && Within(sizes, other, n, limit)
    requires AllAtLeast(sizes[..|sizes| - 1], mine, n, low)
    ensures 3 * n * (low + sizes[|sizes| - 1]) <= (4 * n - 1) * limit
  {
    var p := sizes[|sizes| - 1];
    if low + p <= limit {
      RoomArithmetic(n, low + p, limit);
    } else {
      OverflowMeansSmall(sizes, mine, other, n, limit);
      SmallestIsBelowAverage(sizes, mine, other, n, low, limit);
      GrahamArithmetic(n, low, p, limit);
    }
  }

  // ---- the bound is tight for every number of bins ----

  /** 2n-1, 2n-1, 2n-2, 2n-2, .., n, n and one more n. */
  function TightSizes(n: nat): (s: seq<nat>)
    requires n >= 1
    ensures |s| == 2 * n + 1 && Descending(s)
    ensures forall t :: 0 <= t < |s| ==> s[t] == TightSize(n, t)
  {
    seq(2 * n + 1, t requires 0 <= t < 2 * n + 1 => TightSize(n, t))
  }

  function TightSize(n: nat, t: nat): nat
    requires n >= 1 && t <= 2 * n
  {
    if t < 2 * n then 2 * n - 1 - t / 2 else n
  }

  /** Of the first 2n items, the first n open the bins and the rest top them up to 3n-1, the lightest first. */
  predicate ToppedUp(n: nat, t: nat, b: nat) {
    t > n && if t % 2 == 0 then b >= 2 * n - t else b >= 2 * n - t + 1 || b == 2 * n - 1 - t
  }

  function GreedyBin(n: nat, t: nat): int {
    if t < n then t
    else if t % 2 == 0 then 2 * n - 2 - t
    else if t == n then n - 1
    else 2 * n - t
  }

  function GreedyLevel(n: nat, t: nat, b: nat): nat
    requires n >= 1 && b < n
  {
    if ToppedUp(n, t, b) then 3 * n - 1 else if b < t then TightSize(n, b) else 0
  }

  lemma GreedyBinInRange(n: nat, t: nat)
    requires n >= 1 && t < 2 * n
    ensures 0 <= GreedyBin(n, t) < n
    ensures t >= n ==> !ToppedUp(n, t, GreedyBin(n, t))
  {
  }

  /** `GreedyBin` is the first bin of the lowest level. */
  lemma LowestLevel(n: nat, t: nat, c: nat)
    requires n >= 1 && t < 2 * n && c < n
    ensures var g := GreedyBin(n, t);
      && 0 <= g < n && GreedyLevel(n, t, g) <= GreedyLevel(n, t, c)
      && (c < g ==> GreedyLevel(n, t, g) < GreedyLevel(n, t, c))
  {
    GreedyBinInRange(n, t);
    var g := GreedyBin(n, t);
    if t >= n && !ToppedUp(n, t, c) {
      assert c < g ==> c / 2 < g / 2;
      assert g <= c ==> c / 2 == g / 2;
    }
  }

  lemma NextLevel(n: nat, t: nat, b: nat)
    requires n >= 1 && t < 2 * n && b < n
    ensures GreedyLevel(n, t + 1, b) == GreedyLevel(n, t, b) + (if b == GreedyBin(n, t) then TightSize(n, t) else 0)
  {
  }

  lemma OnlyFirstSmallest(sizes: seq<nat>, assign: seq<nat>, n: nat, b: nat)
    requires |assign| == |sizes| && b < n
    requires forall c :: 0 <= c < n ==> Load(sizes, assign, b) <= Load(sizes, assign, c)
    requires forall c :: 0 <= c < b ==> Load(sizes, assign, b) < Load(sizes, assign, c)
    ensures FirstSmallest(sizes, assign, n) == b
  {
  }

  lemma {:induction false} TightLevels(n: nat, t: nat)
    requires n >= 1 && t <= 2 * n
    ensures var sizes := TightSizes(n)[..t];
      forall b :: 0 <= b < n ==> Load(sizes, Greedy(sizes, n), b) == GreedyLevel(n, t, b)
  {
    if t > 0 {
      hide Load, Greedy, GreedyLevel, TightSizes;
      var sizes := TightSizes(n)[..t];
      assert sizes[..t - 1] == TightSizes(n)[..t - 1];
      TightLevels(n, t - 1);
      forall b | 0 <= b < n
        ensures Load(sizes, Greedy(sizes, n), b) == GreedyLevel(n, t, b)
      {
        TightStep(n, t - 1, sizes, b);
      }
    }
  }

  lemma TightStep(n: nat, t: nat, sizes: seq<nat>, b: nat)
    requires n >= 1 && t < 2 * n && b < n && |sizes| == t + 1 && sizes[t] == TightSize(n, t)
    requires forall c :: 0 <= c < n ==> Load(sizes[..t], Greedy(sizes[..t], n), c) == GreedyLevel(n, t, c)
    ensures Load(sizes, Greedy(sizes, n), b) == GreedyLevel(n, t + 1, b)
  {
    hide Load, Greedy, GreedyLevel, GreedyBin, TightSize, FirstSmallest, ToppedUp;
    forall c | 0 <= c < n
      ensures var g := GreedyBin(n, t);
        && 0 <= g < n && GreedyLevel(n, t, g) <= GreedyLevel(n, t, c)
        && (c < g ==> GreedyLevel(n, t, g) < GreedyLevel(n, t, c))
    {
      LowestLevel(n, t, c);
    }
    GreedyBinInRange(n, t);
    OnlyFirstSmallest(sizes[..t], Greedy(sizes[..t], n), n, GreedyBin(n, t));
    GreedyLoad(sizes, n, b);
    NextLevel(n, t, b);
  }

  /** The three smallest items share a bin, and the others pair up to 3n. */
  function BestBin(n: nat, t: nat): int {
    if t < n - 1 then t else if t < 2 * n - 2 then 2 * n - 3 - t else n - 1
  }

  function BestAssignment(n: nat): (s: seq<nat>)
    requires n >= 1
    ensures |s| == 2 * n + 1 && forall t :: 0 <= t < |s| ==> s[t] == BestBin(n, t) < n
  {
    seq(2 * n + 1, t requires 0 <= t < 2 * n + 1 => BestBin(n, t))
  }

  function BestLevel(n: nat, t: nat, b: nat): nat
    requires n >= 1 && b < n && t <= 2 * n + 1
  {
    if b == n - 1 then (if t <= 2 * n - 2 then 0 else n * (t - (2 * n - 2)))
    else (if b < t then TightSize(n, b) else 0) + (if 2 * n - 3 - b < t then TightSize(n, 2 * n - 3 - b) else 0)
  }

  lemma NextBestLevel(n: nat, t: nat, b: nat)
    requires n >= 1 && t <= 2 * n && b < n
    ensures BestLevel(n, t + 1, b) == BestLevel(n, t, b) + (if BestBin(n, t) == b then TightSize(n, t) else 0)
  {
    if b == n - 1 && t >= 2 * n - 2 {
      assert n * (t + 1 - (2 * n - 2)) == n * (t - (2 * n - 2)) + n;
    }
  }

  lemma {:induction false} BestLevels(n: nat, t: nat, b: nat)
    requires n >= 1 && t <= 2 * n + 1 && b < n
    ensures Load(TightSizes(n)[..t], BestAssignment(n)[..t], b) == BestLevel(n, t, b)
  {
    if t > 0 {
      hide BestLevel, TightSize, BestBin;
      var sizes, best := TightSizes(n)[..t], BestAssignment(n)[..t];
      assert sizes[..t - 1] == TightSizes(n)[..t - 1] && best[..t - 1] == BestAssignment(n)[..t - 1];
      BestLevels(n, t - 1, b);
      NextBestLevel(n, t - 1, b);
    } else {
      assert TightSizes(n)[..t] == [];
    }
  }

  lemma BestIsWithin(n: nat)
    requires n >= 1
    ensures Within(TightSizes(n), BestAssignment(n), n, 3 * n)
  {
    hide TightSize, BestBin, Load;
    var t := 2 * n + 1;
    assert TightSizes(n)[..t] == TightSizes(n) && BestAssignment(n)[..t] == BestAssignment(n);
    forall b | 0 <= b < n
      ensures Load(TightSizes(n), BestAssignment(n), b) <= 3 * n
    {
      BestLevels(n, t, b);
      BestLevelFits(n, b);
    }
  }

  lemma BestLevelFits(n: nat, b: nat)
    requires n >= 1 && b < n
    ensures BestLevel(n, 2 * n + 1, b) == 3 * n
  {
  }

  /** The bound cannot be improved for any number of bins: 2n+1 files meet it exactly. */
  lemma LongestFirstBoundIsTight(n: nat)
    requires n >= 1
    ensures exists sizes: seq<nat>, best: seq<nat>, limit: nat, b: nat ::
      && Descending(sizes) && Within(sizes, best, n, limit) && limit > 0 && b < n
      && 3 * n * Load(sizes, Greedy(sizes, n), b) == (4 * n - 1) * limit
  {
    hide Load, Greedy, GreedyLevel, TightSize, BestBin, FirstSmallest, Within, Descending;
    var sizes := TightSizes(n);
    var rest := sizes[..2 * n];
    BestIsWithin(n);
    TightLevels(n, 2 * n);
    var b := FirstSmallest(rest, Greedy(rest, n), n);
    GreedyLoad(sizes, n, b);
    LastLevel(n, b);
    assert Load(sizes, Greedy(sizes, n), b) == 4 * n - 1;
    assert 3 * n * (4 * n - 1) == (4 * n - 1) * (3 * n);
  }

  lemma LastLevel(n: nat, b: nat)
    requires n >= 1 && b < n
    ensures GreedyLevel(n, 2 * n, b) == 3 * n - 1 && TightSize(n, 2 * n) == n
  {
  }
}
