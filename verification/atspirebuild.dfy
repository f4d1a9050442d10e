/** Reading the accessible forest back out of a dump, using nothing but `parentIndex`. */
module AtspiRebuild {
  import opened Wrappers
  import opened AtspiDump

  /** An accessible as far as the dump shows it. */
  datatype Shape = Shape(role: string, text: Option<string>, app: AppInfo, kids: seq<Shape>)

  /** The accessible forest without empty slots, cut at the depth limit. */
  function ShapesOf(cs: seq<Child>, app: AppInfo, depth: nat, maxDepth: nat): seq<Shape>
    decreases cs, 0
  {
    if cs == [] then [] else ShapesOfSlot(cs[0], app, depth, maxDepth) + ShapesOf(cs[1..], app, depth, maxDepth)
  }

  function ShapesOfSlot(c: Child, app: AppInfo, depth: nat, maxDepth: nat): seq<Shape>
    decreases c, 2
  {
    if c.Missing? || depth > maxDepth then [] else [ShapeOf(c.node, app, depth, maxDepth)]
  }

  function ShapeOf(a: Accessible, app: AppInfo, depth: nat, maxDepth: nat): Shape
    decreases a, 1
  {
    Shape(RoleOf(a), LabelOf(a), app, ShapesOf(a.children, app, depth + 1, maxDepth))
  }

  /** Reads consecutive subtrees whose roots have the given parent, from position `from` on. */
  function Rebuild(nodes: seq<Entry>, from: nat, parent: Option<nat>): (r: (seq<Shape>, nat))
    requires from <= |nodes|
    ensures from <= r.1 <= |nodes|
    decreases |nodes| - from
  {
    if from == |nodes| || nodes[from].parentIndex != parent then ([], from)
    else
      var kids := Rebuild(nodes, from + 1, Some(from));
      var rest := Rebuild(nodes, kids.1, parent);
      ([Shape(nodes[from].role, nodes[from].text, nodes[from].app, kids.0)] + rest.0, rest.1)
  }

  /** What follows does not belong below anything from position `start` on. */
  ghost predicate Closes(post: seq<Entry>, start: nat) {
    post != [] && post[0].parentIndex.Some? ==> post[0].parentIndex.value < start
  }

  ghost predicate ParentBefore(at: Place, start: nat) {
    at.parent.Some? ==> at.parent.value < start
  }

  lemma {:induction false} SiblingsHead(cs: seq<Child>, at: Place, start: nat, maxDepth: nat)
    requires cs != []
    ensures var first := Slot(cs[0], at, start, maxDepth);
      Siblings(cs, at, start, maxDepth) == first + Siblings(cs[1..], at, start + |first|, maxDepth)
  {
    var n := |cs| - 1;
    if n > 0 {
      SiblingsHead(cs[..n], at, start, maxDepth);
      assert cs[..n][1..] == cs[1..][..n - 1];
      var first := Slot(cs[0], at, start, maxDepth);
      var middle := Siblings(cs[1..][..n - 1], at, start + |first|, maxDepth);
      var last := Slot(cs[n], at, start + |first| + |middle|, maxDepth);
      assert (first + middle) + last == first + (middle + last);
    }
  }

  lemma {:induction false} SiblingsParent(cs: seq<Child>, at: Place, start: nat, maxDepth: nat)
    ensures var s := Siblings(cs, at, start, maxDepth); s != [] ==> s[0].parentIndex == at.parent
  {
    if cs != [] {
      SiblingsHead(cs, at, start, maxDepth);
      SiblingsParent(cs[1..], at, start + |Slot(cs[0], at, start, maxDepth)|, maxDepth);
    }
  }

  /** One unfolding of `Rebuild` at a node whose subtree is known. */
  lemma RebuildStep(nodes: seq<Entry>, from: nat, parent: Option<nat>, kids: seq<Shape>, mid: nat)
    requires from < |nodes| && nodes[from].parentIndex == parent
    requires Rebuild(nodes, from + 1, Some(from)) == (kids, mid)
    ensures from < mid <= |nodes|
    ensures var e, rest := nodes[from], Rebuild(nodes, mid, parent);
      Rebuild(nodes, from, parent) == ([Shape(e.role, e.text, e.app, kids)] + rest.0, rest.1)
  {
  }

  lemma RebuildStops(pre: seq<Entry>, post: seq<Entry>, parent: Option<nat>)
    requires post != [] ==> post[0].parentIndex != parent
    ensures Rebuild(pre + post, |pre|, parent) == ([], |pre|)
  {
  }

  lemma Regroup(pre: seq<Entry>, first: seq<Entry>, others: seq<Entry>, post: seq<Entry>)
    ensures pre + (first + others) + post == (pre + first) + others + post
    ensures pre + (first + others) + post == pre + first + (others + post)
  {
  }

  /** A subtree is read back as one shape, whatever follows it. */
  lemma {:induction false} RebuildSubtree(pre: seq<Entry>, a: Accessible, at: Place, post: seq<Entry>, maxDepth: nat)
    requires at.depth <= maxDepth && ParentBefore(at, |pre|) && Closes(post, |pre|)
    ensures var tree := Preorder(a, at, |pre|, maxDepth);
      var rest := Rebuild(pre + tree + post, |pre| + |tree|, at.parent);
      Rebuild(pre + tree + post, |pre|, at.parent) == ([ShapeOf(a, at.app, at.depth, maxDepth)] + rest.0, rest.1)
    decreases a, 1
  {
    hide Rebuild;
    var e, below := EntryFor(a, at, |pre|), Below(a, at, |pre|);
    var kids := Siblings(a.children, below, |pre| + 1, maxDepth);
    var nodes := pre + Preorder(a, at, |pre|, maxDepth) + post;
    Regroup(pre, [e], kids, post);
    RebuildChildren(pre + [e], a.children, below, post, maxDepth);
    assert nodes[|pre|] == e;
    RebuildStep(nodes, |pre|, at.parent, ShapesOf(a.children, at.app, at.depth + 1, maxDepth), |pre| + 1 + |kids|);
  }

  lemma {:induction false} RebuildChildren(pre: seq<Entry>, cs: seq<Child>, at: Place, post: seq<Entry>, maxDepth: nat)
    requires ParentBefore(at, |pre|) && Closes(post, |pre|)
    requires post != [] ==> post[0].parentIndex != at.parent
    ensures var flat := Siblings(cs, at, |pre|, maxDepth);
      Rebuild(pre + flat + post, |pre|, at.parent) == (ShapesOf(cs, at.app, at.depth, maxDepth), |pre| + |flat|)
    decreases cs, 0
  {
    hide Rebuild, Siblings, Slot;
    if cs == [] {
      assert Siblings(cs, at, |pre|, maxDepth) == [] by { NoSiblings(cs, at, |pre|, maxDepth); }
      assert pre + [] + post == pre + post;
      RebuildStops(pre, post, at.parent);
    } else {
      var first := Slot(cs[0], at, |pre|, maxDepth);
      var others := Siblings(cs[1..], at, |pre| + |first|, maxDepth);
      SiblingsHead(cs, at, |pre|, maxDepth);
      SiblingsParent(cs[1..], at, |pre| + |first|, maxDepth);
      Regroup(pre, first, others, post);
      RebuildChildren(pre + first, cs[1..], at, post, maxDepth);
      RebuildFirst(pre, cs[0], at, others + post, maxDepth);
    }
  }

  lemma {:induction false} RebuildFirst(pre: seq<Entry>, c: Child, at: Place, post: seq<Entry>, maxDepth: nat)
    requires ParentBefore(at, |pre|) && Closes(post, |pre|)
    ensures var tree := Slot(c, at, |pre|, maxDepth);
      var rest := Rebuild(pre + tree + post, |pre| + |tree|, at.parent);
      Rebuild(pre + tree + post, |pre|, at.parent) == (ShapesOfSlot(c, at.app, at.depth, maxDepth) + rest.0, rest.1)
    decreases c, 2
  {
    if c.Present? && at.depth <= maxDepth {
      RebuildSubtree(pre, c.node, at, post, maxDepth);
    } else {
      assert [] + Rebuild(pre + [] + post, |pre|, at.parent).0 == Rebuild(pre + [] + post, |pre|, at.parent).0;
    }
  }

  // ---- whole dumps ----

  function ShapesOfApps(apps: seq<Child>, info: Accessible -> AppInfo, maxDepth: nat): seq<Shape> {
    if apps == [] then [] else ShapesOfApp(apps[0], info, maxDepth) + ShapesOfApps(apps[1..], info, maxDepth)
  }

  function ShapesOfApp(c: Child, info: Accessible -> AppInfo, maxDepth: nat): seq<Shape> {
    if c.Missing? || c.node.children == [] then [] else [ShapeOf(c.node, info(c.node), 0, maxDepth)]
  }

  /** The forest a capture sets out to describe. */
  function CapturedForest(surface: Surface, desktop: seq<Child>, info: Accessible -> AppInfo,
                          maxDepth: nat, maxApps: nat): seq<Shape> {
    match surface
    case Desktop => ShapesOfApps(FirstApps(desktop, maxApps), info, maxDepth)
    case FrontmostApp =>
      match FocusedApplication(desktop)
      case None => []
      case Some(app) => [ShapeOf(app, info(app), 0, maxDepth)]
  }

  lemma {:induction false} ApplicationsHead(apps: seq<Child>, info: Accessible -> AppInfo, start: nat, maxDepth: nat)
    requires apps != []
    ensures var first := OneApplication(apps[0], info, start, maxDepth);
      Applications(apps, info, start, maxDepth) == first + Applications(apps[1..], info, start + |first|, maxDepth)
  {
    hide OneApplication;
    var n := |apps| - 1;
    if n > 0 {
      ApplicationsHead(apps[..n], info, start, maxDepth);
      assert apps[..n][1..] == apps[1..][..n - 1];
      var first := OneApplication(apps[0], info, start, maxDepth);
      var middle := Applications(apps[1..][..n - 1], info, start + |first|, maxDepth);
      var last := OneApplication(apps[n], info, start + |first| + |middle|, maxDepth);
      assert (first + middle) + last == first + (middle + last);
    }
  }

  lemma {:induction false} ApplicationsRooted(apps: seq<Child>, info: Accessible -> AppInfo, start: nat, maxDepth: nat)
    ensures var s := Applications(apps, info, start, maxDepth); s != [] ==> s[0].parentIndex == None
  {
    if apps != [] {
      ApplicationsHead(apps, info, start, maxDepth);
      ApplicationsRooted(apps[1..], info, start + |OneApplication(apps[0], info, start, maxDepth)|, maxDepth);
    }
  }

  lemma {:induction false} RebuildApps(pre: seq<Entry>, apps: seq<Child>, info: Accessible -> AppInfo, maxDepth: nat)
    ensures var flat := Applications(apps, info, |pre|, maxDepth);
      Rebuild(pre + flat, |pre|, None) == (ShapesOfApps(apps, info, maxDepth), |pre| + |flat|)
    decreases apps
  {
    hide Rebuild, Preorder, Applications, ShapeOf;
    if apps == [] {
      assert Applications(apps, info, |pre|, maxDepth) == [] by { NoApplications(apps, info, |pre|, maxDepth); }
      RebuildStops(pre, [], None);
    } else {
      var first := OneApplication(apps[0], info, |pre|, maxDepth);
      var others := Applications(apps[1..], info, |pre| + |first|, maxDepth);
      ApplicationsHead(apps, info, |pre|, maxDepth);
      ApplicationsRooted(apps[1..], info, |pre| + |first|, maxDepth);
      RebuildApps(pre + first, apps[1..], info, maxDepth);
      assert pre + (first + others) == (pre + first) + others == pre + first + others;
      if apps[0].Present? && apps[0].node.children != [] {
        RebuildSubtree(pre, apps[0].node, Root(info, apps[0].node), others, maxDepth);
      } else {
        assert pre + first == pre;
        assert [] + ShapesOfApps(apps[1..], info, maxDepth) == ShapesOfApps(apps[1..], info, maxDepth);
      }
    }
  }

  /** An uncut dump determines the forest: it can be read back from the parent indices alone. */
  lemma UncutDumpIsInvertible(surface: Surface, desktop: seq<Child>, info: Accessible -> AppInfo,
                              maxNodes: nat, maxDepth: nat, maxApps: nat)
    requires |FullWalk(surface, desktop, info, maxDepth, maxApps)| <= maxNodes
    ensures var nodes := Cap(FullWalk(surface, desktop, info, maxDepth, maxApps), maxNodes);
      Rebuild(nodes, 0, None) == (CapturedForest(surface, desktop, info, maxDepth, maxApps), |nodes|)
  {
    match surface {
      case Desktop =>
        var apps := FirstApps(desktop, maxApps);
        RebuildApps([], apps, info, maxDepth);
        assert [] + Applications(apps, info, 0, maxDepth) == Applications(apps, info, 0, maxDepth);
      case FrontmostApp =>
        match FocusedApplication(desktop) {
          case None =>
          case Some(app) =>
            var tree := Preorder(app, Root(info, app), 0, maxDepth);
            RebuildSubtree([], app, Root(info, app), [], maxDepth);
            RebuildStops(tree, [], None);
            assert [] + tree + [] == tree == tree + [];
            var shape := ShapeOf(app, info(app), 0, maxDepth);
            assert [shape] + [] == [shape];
        }
    }
  }
}
