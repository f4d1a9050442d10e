/**
 The depth-first walk that scripts/layering/model.ts runs twice: once to find value-import
 cycles, once to find the largest component over value and type-only edges. The two copies
 differ only in what they keep when a component is popped, so the model runs one walk that
 keeps both records (`cyclic` and `biggest`) and a ghost list of everything it popped.
 */
module Tarjan {
  import opened Digraph
  import opened Sequences

  ghost predicate Within(es: Edges, files: set<File>) {
    forall a, b :: (a, b) in es ==> a in files && b in files
  }

  /** Depth-first numbering: later on the stack means visited later. */
  ghost predicate Numbered(index: map<File, nat>, stack: seq<File>, next: nat) {
    && (forall v :: v in index ==> index[v] < next)
    && (forall i :: 0 <= i < |stack| ==> stack[i] in index)
    && (forall i, j :: 0 <= i < j < |stack| ==> index[stack[i]] < index[stack[j]])
  }

  /** Every visited vertex is on the stack or settled, and settled vertices lead only to settled ones. */
  ghost predicate Coloured(es: Edges, index: map<File, nat>, stack: seq<File>, grays: set<File>, done: set<File>) {
    && (forall v :: v in index <==> v in stack || v in done)
    && (forall v :: v in stack ==> v !in done)
    && Closed(es, done)
    && (forall v :: v in grays ==> v in stack)
    && (forall v, w :: v in index && v !in grays && (v, w) in es ==> w in index)
  }

  /** Vertices still being explored reach everything above them on the stack... */
  ghost predicate GraysReachUp(es: Edges, stack: seq<File>, grays: set<File>) {
    forall i, j :: 0 <= i <= j < |stack| && stack[i] in grays ==> Reach(es, stack[i], stack[j])
  }

  ghost predicate Grounded(es: Edges, stack: seq<File>, grays: set<File>, j: nat)
    requires j < |stack|
  {
    exists i :: 0 <= i <= j && stack[i] in grays && Reach(es, stack[j], stack[i])
  }

  /** ...and every vertex on the stack reaches one still being explored, no higher than itself. */
  ghost predicate AllGrounded(es: Edges, stack: seq<File>, grays: set<File>) {
    forall j :: 0 <= j < |stack| ==> Grounded(es, stack, grays, j)
  }

  /** The popped lists are duplicate-free, pairwise disjoint components that make up `done`. */
  ghost predicate Settled(es: Edges, popped: seq<seq<File>>, done: set<File>) {
    && (forall k :: 0 <= k < |popped| ==> Distinct(popped[k]) && IsComponent(es, Elements(popped[k])))
    && (forall k, v :: 0 <= k < |popped| && v in popped[k] ==> v in done)
    && (forall v :: v in done ==> exists k :: 0 <= k < |popped| && v in popped[k])
    && (forall k, m :: 0 <= k < m < |popped| ==> Elements(popped[k]) !! Elements(popped[m]))
  }

  ghost predicate Consistent(es: Edges, index: map<File, nat>, stack: seq<File>, next: nat,
                             grays: set<File>, done: set<File>, popped: seq<seq<File>>) {
    && Numbered(index, stack, next)
    && Coloured(es, index, stack, grays, done)
    && GraysReachUp(es, stack, grays)
    && AllGrounded(es, stack, grays)
    && Settled(es, popped, done)
  }

  lemma PushKeeps(es: Edges, index: map<File, nat>, stack: seq<File>, next: nat,
                  grays: set<File>, done: set<File>, popped: seq<seq<File>>, v: File)
    requires Consistent(es, index, stack, next, grays, done, popped)
    requires v !in index && forall g :: g in grays ==> Reach(es, g, v)
    ensures Consistent(es, index[v := next], stack + [v], next + 1, grays + {v}, done, popped)
  {
    var s := stack + [v];
    ReachSelf(es, v);
    forall j | 0 <= j < |s|
      ensures Grounded(es, s, grays + {v}, j)
    {
      if j < |stack| {
        assert Grounded(es, stack, grays, j);
        var i :| 0 <= i <= j && stack[i] in grays && Reach(es, stack[j], stack[i]);
        assert s[i] in grays + {v} && Reach(es, s[j], s[i]);
      } else {
        assert s[j] == v;
      }
    }
  }

  /** `low` is the index of a vertex at or below `base` that `v` reaches... */
  ghost predicate LowAttained(es: Edges, index: map<File, nat>, stack: seq<File>, base: int, v: File, low: nat) {
    exists i :: 0 <= i <= base && i < |stack| && stack[i] in index && index[stack[i]] == low && Reach(es, v, stack[i])
  }

  /** ...and no handled edge from `base` or above leads to a vertex below `base` with a smaller index. */
  ghost predicate LowBounds(es: Edges, index: map<File, nat>, stack: seq<File>, base: nat, seen: set<File>, low: nat) {
    forall i, j | base <= i < |stack| && 0 <= j < base && (stack[i], stack[j]) in es && stack[j] in index ::
      (i == base ==> stack[j] in seen) ==> low <= index[stack[j]]
  }

  lemma LowFresh(es: Edges, index: map<File, nat>, stack: seq<File>, v: File, next: nat)
    ensures LowAttained(es, index[v := next], stack + [v], |stack|, v, next)
    ensures LowBounds(es, index[v := next], stack + [v], |stack|, {}, next)
  {
    ReachSelf(es, v);
    assert (stack + [v])[|stack|] == v;
  }

  /** The moment before a pop: `v` is the only open vertex at or above `base` and nothing there points below it. */
  ghost predicate ReadyToPop(es: Edges, index: map<File, nat>, stack: seq<File>,
                             grays: set<File>, done: set<File>, base: nat, v: File)
  {
    && base < |stack| && stack[base] == v && v in grays
    && (forall i :: base < i < |stack| ==> stack[i] !in grays)
    && (forall w :: (v, w) in es ==> w in index)
    && (forall i, j :: base <= i < |stack| && 0 <= j < base ==> (stack[i], stack[j]) !in es)
  }

  lemma SuffixClosed(es: Edges, index: map<File, nat>, stack: seq<File>,
                     grays: set<File>, done: set<File>, base: nat, v: File)
    requires Coloured(es, index, stack, grays, done)
    requires Distinct(stack)
    requires ReadyToPop(es, index, stack, grays, done, base, v)
    ensures Closed(es, done + Elements(stack[base..]))
  {
  }

  lemma SuffixMutual(es: Edges, index: map<File, nat>, stack: seq<File>,
                     grays: set<File>, done: set<File>, base: nat, v: File, j: nat)
    requires Coloured(es, index, stack, grays, done) && Distinct(stack)
    requires GraysReachUp(es, stack, grays) && AllGrounded(es, stack, grays)
    requires ReadyToPop(es, index, stack, grays, done, base, v)
    requires base <= j < |stack|
    ensures Mutual(es, v, stack[j])
  {
    var top := stack[base..];
    assert Grounded(es, stack, grays, j);
    var i :| 0 <= i <= j && stack[i] in grays && Reach(es, stack[j], stack[i]);
    assert top[j - base] == stack[j];
    SuffixClosed(es, index, stack, grays, done, base, v);
    ClosedStays(es, done + Elements(top), stack[j], stack[i]);
    var k :| 0 <= k < |top| && top[k] == stack[i];
    assert stack[base + k] == stack[i];
    assert i == base;
  }

  lemma GraysBelow(index: map<File, nat>, stack: seq<File>, next: nat, base: nat, grays: set<File>)
    requires Numbered(index, stack, next) && base < |stack|
    requires forall g :: g in grays ==> g in index && index[g] < index[stack[base]]
    ensures forall i :: base < i < |stack| ==> stack[i] !in grays
  {
  }

  /** Popping down to `v` settles exactly one strongly connected component. */
  lemma SuffixIsComponent(es: Edges, index: map<File, nat>, stack: seq<File>,
                          grays: set<File>, done: set<File>, base: nat, v: File)
    requires Coloured(es, index, stack, grays, done) && Distinct(stack)
    requires GraysReachUp(es, stack, grays) && AllGrounded(es, stack, grays)
    requires ReadyToPop(es, index, stack, grays, done, base, v)
    ensures IsComponent(es, Elements(stack[base..]))
  {
    var top := stack[base..];
    assert v == top[0];
    forall x | x in top
      ensures Mutual(es, v, x)
    {
      var i :| 0 <= i < |top| && top[i] == x;
      SuffixMutual(es, index, stack, grays, done, base, v, base + i);
    }
    SuffixClosed(es, index, stack, grays, done, base, v);
    forall x, y | x in Elements(top)
      ensures y in Elements(top) <==> Mutual(es, x, y)
    {
      if y in Elements(top) {
        ReachTrans(es, x, v, y);
        ReachTrans(es, y, v, x);
      } else if Mutual(es, x, y) {
        ClosedStays(es, done + Elements(top), x, y);
        ClosedStays(es, done, y, x);
      }
    }
  }

  /** A vertex that points below itself can be closed: whatever rested on it rests on an older open vertex. */
  lemma RetireGrounded(es: Edges, index: map<File, nat>, stack: seq<File>, next: nat,
                       grays: set<File>, base: nat, v: File, low: nat)
    requires Numbered(index, stack, next) && AllGrounded(es, stack, grays + {v})
    requires base < |stack| && stack[base] == v && v !in grays
    requires LowAttained(es, index, stack, base, v, low) && low < index[v]
    ensures AllGrounded(es, stack, grays)
    ensures LowAttained(es, index, stack, base - 1, v, low)
  {
    var i :| 0 <= i <= base && i < |stack| && stack[i] in index && index[stack[i]] == low && Reach(es, v, stack[i]);
    assert i < base;
    assert Grounded(es, stack, grays + {v}, i);
    var k :| 0 <= k <= i && stack[k] in grays + {v} && Reach(es, stack[i], stack[k]);
    assert index[stack[k]] < index[v];
    ReachTrans(es, v, stack[i], stack[k]);
    forall j | 0 <= j < |stack|
      ensures Grounded(es, stack, grays, j)
    {
      assert Grounded(es, stack, grays + {v}, j);
      var m :| 0 <= m <= j && stack[m] in grays + {v} && Reach(es, stack[j], stack[m]);
      if stack[m] == v {
        ReachTrans(es, stack[j], v, stack[k]);
        assert m == base;
      }
    }
  }

  lemma RetireKeeps(es: Edges, index: map<File, nat>, stack: seq<File>, next: nat,
                    grays: set<File>, done: set<File>, popped: seq<seq<File>>, base: nat, v: File, low: nat)
    requires Consistent(es, index, stack, next, grays + {v}, done, popped)
    requires base < |stack| && stack[base] == v && v !in grays
    requires forall w :: (v, w) in es ==> w in index
    requires LowAttained(es, index, stack, base, v, low) && low < index[v]
    ensures Consistent(es, index, stack, next, grays, done, popped)
    ensures LowAttained(es, index, stack, base - 1, v, low)
  {
    RetireGrounded(es, index, stack, next, grays, base, v, low);
  }

  lemma NumberedIsDistinct(index: map<File, nat>, stack: seq<File>, next: nat)
    requires Numbered(index, stack, next)
    ensures Distinct(stack)
  {
  }

  lemma PopColoured(es: Edges, index: map<File, nat>, stack: seq<File>,
                    grays: set<File>, done: set<File>, base: nat, v: File)
    requires Coloured(es, index, stack, grays + {v}, done) && v !in grays && Distinct(stack)
    requires ReadyToPop(es, index, stack, grays + {v}, done, base, v)
    ensures Coloured(es, index, stack[..base], grays, done + Elements(stack[base..]))
    ensures Elements(stack[base..]) !! done
  {
  }

  lemma PopGrounded(es: Edges, stack: seq<File>, grays: set<File>, base: nat, v: File)
    requires AllGrounded(es, stack, grays + {v}) && GraysReachUp(es, stack, grays + {v}) && Distinct(stack)
    requires base < |stack| && stack[base] == v
    ensures AllGrounded(es, stack[..base], grays) && GraysReachUp(es, stack[..base], grays)
  {
    var rest := stack[..base];
    forall j | 0 <= j < |rest|
      ensures Grounded(es, rest, grays, j)
    {
      assert Grounded(es, stack, grays + {v}, j);
      var m :| 0 <= m <= j && stack[m] in grays + {v} && Reach(es, stack[j], stack[m]);
      assert rest[m] in grays && Reach(es, rest[j], rest[m]);
    }
  }

  /** Popping a component keeps the walk consistent with `v` closed. */
  lemma PopKeeps(es: Edges, index: map<File, nat>, stack: seq<File>, next: nat,
                 grays: set<File>, done: set<File>, popped: seq<seq<File>>, base: nat, v: File, component: seq<File>)
    requires Consistent(es, index, stack, next, grays + {v}, done, popped) && v !in grays
    requires ReadyToPop(es, index, stack, grays + {v}, done, base, v)
    requires Distinct(component) && Elements(component) == Elements(stack[base..])
    ensures Consistent(es, index, stack[..base], next, grays, done + Elements(component), popped + [component])
    ensures IsComponent(es, Elements(component))
  {
    NumberedIsDistinct(index, stack, next);
    PopColoured(es, index, stack, grays, done, base, v);
    PopGrounded(es, stack, grays, base, v);
    SuffixIsComponent(es, index, stack, grays + {v}, done, base, v);
    PopSettles(es, popped, done, component);
  }

  lemma PopSettles(es: Edges, popped: seq<seq<File>>, done: set<File>, component: seq<File>)
    requires Settled(es, popped, done)
    requires Distinct(component) && IsComponent(es, Elements(component)) && Elements(component) !! done
    ensures Settled(es, popped + [component], done + Elements(component))
  {
    var after := popped + [component];
    forall v | v in done + Elements(component)
      ensures exists k :: 0 <= k < |after| && v in after[k]
    {
      if v in done {
        var k :| 0 <= k < |popped| && v in popped[k];
        assert v in after[k];
      } else {
        assert v in after[|popped|];
      }
    }
    forall k, m | 0 <= k < m < |after|
      ensures Elements(after[k]) !! Elements(after[m])
    {
      assert Elements(popped[k]) <= done;
    }
  }

  function Min(a: nat, b: nat): nat {
    if b < a then b else a
  }

  /** Folding the index of a target that is still on the stack into the low link. */
  lemma FoldOnStack(es: Edges, index: map<File, nat>, stack: seq<File>, next: nat, base: nat, v: File,
                    low: nat, seen: set<File>, target: File)
    requires Numbered(index, stack, next) && base < |stack| && stack[base] == v && low <= index[v]
    requires LowAttained(es, index, stack, base, v, low) && LowBounds(es, index, stack, base, seen, low)
    requires (v, target) in es && target in stack
    ensures LowAttained(es, index, stack, base, v, Min(low, index[target]))
    ensures LowBounds(es, index, stack, base, seen + {target}, Min(low, index[target]))
  {
    if index[target] < low {
      var i :| 0 <= i < |stack| && stack[i] == target;
      assert i < base;
      ReachEdge(es, v, target);
    }
  }

  /** A target that has left the stack bounds nothing. */
  lemma FoldSettled(es: Edges, index: map<File, nat>, stack: seq<File>, base: nat, seen: set<File>, low: nat,
                    target: File)
    requires LowBounds(es, index, stack, base, seen, low) && target !in stack
    ensures LowBounds(es, index, stack, base, seen + {target}, low)
  {
  }

  /** Folding the low link of a freshly visited target whose vertices are still on the stack. */
  lemma FoldVisited(es: Edges, index: map<File, nat>, stack: seq<File>, next: nat, base: nat, mid: nat, v: File,
                    low: nat, seen: set<File>, target: File, targetLow: nat, files: set<File>)
    requires Numbered(index, stack, next) && base < mid < |stack| && stack[base] == v && low <= index[v]
    requires stack[mid] == target && (v, target) in es
    requires LowAttained(es, index, stack[..mid], base, v, low) && LowBounds(es, index, stack[..mid], base, seen, low)
    requires LowAttained(es, index, stack, mid - 1, target, targetLow)
    requires LowBounds(es, index, stack, mid, files, targetLow)
    requires Within(es, files)
    ensures LowAttained(es, index, stack, base, v, Min(low, targetLow))
    ensures LowBounds(es, index, stack, base, seen + {target}, Min(low, targetLow))
  {
    var s := stack[..mid];
    if targetLow < low {
      var i :| 0 <= i <= mid - 1 && i < |stack| && stack[i] in index
               && index[stack[i]] == targetLow && Reach(es, target, stack[i]);
      assert i < base;
      ReachEdge(es, v, target);
      ReachTrans(es, v, target, stack[i]);
    } else {
      var i :| 0 <= i <= base && i < |s| && s[i] in index && index[s[i]] == low && Reach(es, v, s[i]);
      assert stack[i] == s[i];
    }
    forall i, j | base <= i < |stack| && 0 <= j < base && (stack[i], stack[j]) in es
                  && (i == base ==> stack[j] in seen + {target})
      ensures Min(low, targetLow) <= index[stack[j]]
    {
      if i < mid {
        assert s[i] == stack[i] && s[j] == stack[j];
        assert index[stack[j]] < index[stack[mid]];
      }
    }
  }

  /** What is known of the low link survives growth of the numbering. */
  lemma LowSurvives(es: Edges, before: map<File, nat>, after: map<File, nat>, stack: seq<File>, next: nat,
                    base: nat, v: File, seen: set<File>, low: nat)
    requires Numbered(before, stack, next)
    requires forall x :: x in before ==> x in after && after[x] == before[x]
    requires LowAttained(es, before, stack, base, v, low) && LowBounds(es, before, stack, base, seen, low)
    ensures LowAttained(es, after, stack, base, v, low) && LowBounds(es, after, stack, base, seen, low)
  {
  }

  /** The record `findValueImportCycles` keeps: popped components that are a cycle. */
  function CyclicOnly(graph: map<File, seq<File>>, popped: seq<seq<File>>): seq<seq<File>> {
    if popped == [] then []
    else
      var c := popped[|popped| - 1];
      CyclicOnly(graph, popped[..|popped| - 1]) + (if IsCyclic(graph, c) then [c] else [])
  }

  predicate IsCyclic(graph: map<File, seq<File>>, c: seq<File>) {
    |c| > 1 || (|c| == 1 && c[0] in Succ(graph, c[0]))
  }

  /** The record `largestTypeCycleMembers` keeps: the first popped component of maximum length. */
  function FirstLargest(popped: seq<seq<File>>): seq<File> {
    if popped == [] then []
    else
      var best := FirstLargest(popped[..|popped| - 1]);
      if |popped[|popped| - 1]| > |best| then popped[|popped| - 1] else best
  }

  class ComponentWalk {
    const graph: map<File, seq<File>>
    ghost const es: Edges
    ghost const files: set<File>
    var index: map<File, nat>
    var lowLink: map<File, nat>
    var stack: seq<File>
    var onStack: set<File>
    var next: nat
    var cyclic: seq<seq<File>>
    var biggest: seq<File>
    ghost var done: set<File>
    ghost var popped: seq<seq<File>>

    /** Everything the walk has settled or still has open, apart from the low links. */
    ghost predicate Sound(grays: set<File>)
      reads this`index, this`stack, this`onStack, this`next,
            this`cyclic, this`biggest, this`done, this`popped
    {
      && Represents(graph, es)
      && Within(es, files)
      && Consistent(es, index, stack, next, grays, done, popped)
      && onStack == Elements(stack)
      && (forall v :: v in index ==> v in files)
      && cyclic == CyclicOnly(graph, popped)
      && biggest == FirstLargest(popped)
    }

    ghost predicate Valid(grays: set<File>)
      reads this
    {
      Sound(grays) && forall v :: v in lowLink <==> v in index
    }

    lemma SoundFacts(grays: set<File>)
      requires Sound(grays)
      ensures Numbered(index, stack, next) && Within(es, files) && Represents(graph, es)
      ensures forall v :: v in index ==> v in files && index[v] < next
      ensures forall v :: v in stack ==> v in index
      ensures forall v :: v in onStack <==> v in stack
      ensures forall v :: v in grays ==> v in index
      ensures Distinct(stack)
    {
    }

    constructor (graph: map<File, seq<File>>, ghost es: Edges, ghost files: set<File>)
      requires Represents(graph, es)
      requires Within(es, files)
      ensures Valid({}) && index == map[] && popped == []
      ensures this.graph == graph && this.es == es && this.files == files
    {
      this.graph, this.es, this.files := graph, es, files;
      index, lowLink, stack, onStack, next := map[], map[], [], {}, 0;
      cyclic, biggest, done, popped := [], [], {}, [];
    }

    method Pop() returns (member: File)
      requires |stack| > 0
      modifies this`stack, this`onStack
      ensures member == old(stack)[|old(stack)| - 1] && stack == old(stack)[..|old(stack)| - 1]
      ensures onStack == old(onStack) - {member}
    {
      member := stack[|stack| - 1];
      stack := stack[..|stack| - 1];
      onStack := onStack - {member};
    }

    method PopDownTo(file: File, ghost base: nat) returns (component: seq<File>)
      requires Distinct(stack) && onStack == Elements(stack)
      requires base < |stack| && stack[base] == file
      modifies this`stack, this`onStack
      ensures stack == old(stack)[..base] && onStack == Elements(stack)
      ensures Distinct(component) && Elements(component) == Elements(old(stack)[base..])
    {
      ghost var full := stack;
      var member := Pop();
      component := [member];
      while member != file
        invariant base <= |stack| < |full| && stack == full[..|stack|]
        invariant member == full[|stack|]
        invariant onStack == Elements(stack)
        invariant |component| == |full| - |stack|
        invariant forall i :: 0 <= i < |component| ==> component[i] == full[|full| - 1 - i]
        decreases |stack|
      {
        assert |stack| != base;
        member := Pop();
        component := component + [member];
      }
      assert |stack| == base;
      forall x
        ensures x in component <==> x in full[base..]
      {
        if x in full[base..] {
          var i :| 0 <= i < |full[base..]| && full[base..][i] == x;
          assert component[|component| - 1 - i] == x;
        }
        if x in component {
          var i :| 0 <= i < |component| && component[i] == x;
          assert full[base..][|component| - 1 - i] == x;
        }
      }
    }

    /** What a finished `Visit` promises about the low link it leaves behind. */
    ghost predicate Reported(file: File, base: nat)
      reads this
      requires file in lowLink && file in index
    {
      if |stack| == base then lowLink[file] == index[file]
      else
        && base < |stack| && stack[base] == file
        && LowAttained(es, index, stack, base - 1, file, lowLink[file])
        && LowBounds(es, index, stack, base, files, lowLink[file])
    }

    ghost predicate Preserves(oldIndex: map<File, nat>, oldLow: map<File, nat>, oldStack: seq<File>)
      reads this
    {
      && oldStack <= stack
      && (forall v :: v in oldIndex ==> v in index && index[v] == oldIndex[v])
      && (forall v :: v in oldLow ==> v in lowLink && lowLink[v] == oldLow[v])
    }

    /** The state of `Visit` after it has handled the edges from `file` to `seen`. */
    ghost predicate Scanning(file: File, base: nat, seen: set<File>)
      reads this
    {
      && base < |stack| && stack[base] == file
      && file in index && file in lowLink && lowLink[file] <= index[file]
      && (forall w :: w in seen ==> w in index)
      && LowAttained(es, index, stack, base, file, lowLink[file])
      && LowBounds(es, index, stack, base, seen, lowLink[file])
    }

    method Open(file: File, ghost grays: set<File>)
      requires Valid(grays) && file in files && file !in index
      requires forall g :: g in grays ==> Reach(es, g, file)
      modifies this
      ensures Valid(grays + {file})
      ensures Preserves(old(index), old(lowLink), old(stack))
      ensures stack == old(stack) + [file]
      ensures index == old(index)[file := old(next)]
      ensures Scanning(file, |old(stack)|, {})
    {
      hide Consistent, LowAttained, LowBounds;
      PushKeeps(es, index, stack, next, grays, done, popped, file);
      LowFresh(es, index, stack, file, next);
      index := index[file := next];
      lowLink := lowLink[file := next];
      next := next + 1;
      stack := stack + [file];
      onStack := onStack + {file};
      assert stack[|stack| - 1] == file;
    }

    /** Nothing reachable points below `file`: pop its component and record it. */
    method Settle(file: File, ghost base: nat, ghost grays: set<File>)
      requires Valid(grays + {file}) && file !in grays
      requires ReadyToPop(es, index, stack, grays + {file}, done, base, file)
      requires base < |stack| && stack[base] == file
      modifies this`stack, this`onStack, this`done, this`popped, this`cyclic, this`biggest
      ensures Valid(grays)
      ensures stack == old(stack)[..base]
    {
      hide Consistent, Numbered, ReadyToPop;
      ghost var full := stack;
      SoundFacts(grays + {file});
      var component := PopDownTo(file, base);
      PopKeeps(es, index, full, next, grays, done, popped, base, file, component);
      done := done + Elements(component);
      popped := popped + [component];
      assert popped[..|popped| - 1] == old(popped);
      if IsCyclic(graph, component) {
        cyclic := cyclic + [component];
      }
      if |component| > |biggest| {
        biggest := component;
      }
    }

    method Close(file: File, ghost base: nat, ghost grays: set<File>)
      requires Valid(grays + {file}) && file !in grays
      requires Scanning(file, base, Elements(Succ(graph, file)))
      requires forall i :: base < i < |stack| ==> stack[i] !in grays
      modifies this`stack, this`onStack, this`done, this`popped, this`cyclic, this`biggest
      ensures Valid(grays)
      ensures old(stack)[..base] <= stack
      ensures Reported(file, base)
    {
      hide Consistent, Numbered, LowAttained, LowBounds;
      SoundFacts(grays + {file});
      assert forall w :: (file, w) in es ==> w in Elements(Succ(graph, file));
      if lowLink[file] != index[file] {
        RetireKeeps(es, index, stack, next, grays, done, popped, base, file, lowLink[file]);
        BoundsComplete(file, base);
      } else {
        NothingBelow(file, base);
        Settle(file, base, grays);
      }
    }

    lemma BoundsComplete(file: File, base: nat)
      requires Represents(graph, es) && Scanning(file, base, Elements(Succ(graph, file)))
      ensures LowBounds(es, index, stack, base, files, lowLink[file])
    {
    }

    lemma NothingBelow(file: File, base: nat)
      requires Numbered(index, stack, next) && Represents(graph, es)
      requires Scanning(file, base, Elements(Succ(graph, file))) && lowLink[file] == index[file]
      ensures forall i, j :: base <= i < |stack| && 0 <= j < base ==> (stack[i], stack[j]) !in es
    {
    }

    method Visit(file: File, ghost grays: set<File>)
      requires Valid(grays) && file in files && file !in index
      requires forall g :: g in grays ==> Reach(es, g, file)
      modifies this
      ensures Valid(grays)
      ensures Preserves(old(index), old(lowLink), old(stack))
      ensures file in index && file in lowLink && index[file] >= old(next)
      ensures Reported(file, |old(stack)|)
      decreases files - index.Keys, 0
    {
      hide Sound, Numbered, LowAttained, LowBounds;
      SoundFacts(grays);
      ghost var base := |stack|;
      Open(file, grays);
      assert file in index.Keys && file !in old(index).Keys;
      Scan(file, grays, base);
      assert stack[..base] == old(stack);
      SoundFacts(grays + {file});
      GraysBelow(index, stack, next, base, grays);
      Close(file, base, grays);
    }

    /** The loop over the targets of `file`. */
    method Scan(file: File, ghost grays: set<File>, ghost base: nat)
      requires Valid(grays + {file}) && Scanning(file, base, {})
      requires forall g :: g in grays ==> Reach(es, g, file)
      modifies this
      ensures Valid(grays + {file})
      ensures Scanning(file, base, Elements(Succ(graph, file)))
      ensures old(stack) <= stack && index[file] == old(index[file])
      ensures forall v :: v in old(index) ==> v in index && index[v] == old(index[v])
      ensures forall v :: v in old(lowLink) && v != file ==> v in lowLink && lowLink[v] == old(lowLink[v])
      decreases files - index.Keys, 3
    {
      hide Sound, LowAttained, LowBounds;
      var targets := Succ(graph, file);
      assert Elements(targets[..0]) == {};
      for i := 0 to |targets|
        invariant Valid(grays + {file})
        invariant Scanning(file, base, Elements(targets[..i]))
        invariant old(stack) <= stack && index[file] == old(index[file])
        invariant forall v :: v in old(index) ==> v in index && index[v] == old(index[v])
        invariant forall v :: v in old(lowLink) && v != file ==> v in lowLink && lowLink[v] == old(lowLink[v])
      {
        assert targets[..i + 1] == targets[..i] + [targets[i]];
        assert Elements(targets[..i + 1]) == Elements(targets[..i]) + {targets[i]};
        SoundFacts(grays + {file});
        Follow(file, targets[i], grays, base, Elements(targets[..i]));
      }
      assert targets[..|targets|] == targets;
    }

    /** One edge of the loop: recurse into an unvisited target or look at the index of a stacked one. */
    method Follow(file: File, target: File, ghost grays: set<File>, ghost base: nat, ghost seen: set<File>)
      requires Valid(grays + {file}) && (file, target) in es
      requires forall g :: g in grays ==> Reach(es, g, file)
      requires Scanning(file, base, seen)
      modifies this
      ensures Valid(grays + {file})
      ensures old(stack) <= stack
      ensures forall v :: v in old(index) ==> v in index && index[v] == old(index[v])
      ensures forall v :: v in old(lowLink) && v != file ==> v in lowLink && lowLink[v] == old(lowLink[v])
      ensures Scanning(file, base, seen + {target})
      decreases files - index.Keys, 2
    {
      hide Sound, Numbered, LowAttained, LowBounds;
      SoundFacts(grays + {file});
      if target !in index {
        Descend(file, target, grays, base, seen);
        lowLink := lowLink[file := Min(lowLink[file], lowLink[target])];
      } else if target in onStack {
        FoldOnStack(es, index, stack, next, base, file, lowLink[file], seen, target);
        lowLink := lowLink[file := Min(lowLink[file], index[target])];
      } else {
        FoldSettled(es, index, stack, base, seen, lowLink[file], target);
      }
    }

    /** A tree edge: visit `target`, after which its low link may be folded into that of `file`. */
    method Descend(file: File, target: File, ghost grays: set<File>, ghost base: nat, ghost seen: set<File>)
      requires Valid(grays + {file}) && (file, target) in es && target !in index
      requires forall g :: g in grays ==> Reach(es, g, file)
      requires Scanning(file, base, seen)
      modifies this
      ensures Valid(grays + {file})
      ensures Preserves(old(index), old(lowLink), old(stack))
      ensures target in index && target in lowLink
      ensures LowAttained(es, index, stack, base, file, Min(lowLink[file], lowLink[target]))
      ensures LowBounds(es, index, stack, base, seen + {target}, Min(lowLink[file], lowLink[target]))
      decreases files - index.Keys, 1
    {
      ghost var mid, low := |stack|, lowLink[file];
      hide Sound, Numbered, LowAttained, LowBounds;
      SoundFacts(grays + {file});
      forall g | g in grays + {file}
        ensures Reach(es, g, target)
      {
        ReachSelf(es, file);
        ReachThenEdge(es, g, file, target);
        ReachPlusIsReach(es, g, target);
      }
      Visit(target, grays + {file});
      assert old(stack) == stack[..mid];
      LowSurvives(es, old(index), index, old(stack), old(next), base, file, seen, low);
      if |stack| > mid {
        SoundFacts(grays + {file});
        FoldVisited(es, index, stack, next, base, mid, file, low, seen, target, lowLink[target], files);
      } else {
        assert stack == old(stack);
        FoldSettled(es, index, stack, base, seen, low, target);
      }
    }

    /** The root loop: afterwards every file reachable from `roots` is settled and nothing is left open. */
    method VisitAll(roots: seq<File>)
      requires Valid({}) && forall r :: r in roots ==> r in files
      modifies this
      ensures Valid({}) && stack == []
      ensures forall r :: r in roots ==> r in done
      ensures Closed(es, done) && Settled(es, popped, done) && done <= files
    {
      hide Consistent, Sound;
      for i := 0 to |roots|
        invariant Valid({})
        invariant forall r :: r in roots[..i] ==> r in index
      {
        if roots[i] !in index {
          Visit(roots[i], {});
        }
      }
      AllSettled();
    }

    lemma AllSettled()
      requires Sound({})
      ensures stack == [] && Closed(es, done) && Settled(es, popped, done) && done <= files
      ensures forall v :: v in index ==> v in done
    {
      assert stack != [] ==> Grounded(es, stack, {}, 0);
    }
  }
}
