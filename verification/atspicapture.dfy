/** `capture` of linux/atspi-dump.py, from the desktop to the dump. */
module AtspiCapture {
  import opened Wrappers
  import opened AtspiDump
  import opened AtspiAddresses

  /** The first entry shows the frontmost application; where there is none the dump is empty. */
  ghost predicate RootIsFrontmost(desktop: seq<Child>, info: Accessible -> AppInfo, nodes: seq<Entry>) {
    && (forall k: nat :: IsFrontmost(desktop, k) ==>
          nodes != [] && desktop[k].Present? && Shows(nodes[0], desktop[k].node) && nodes[0].depth == 0 &&
          nodes[0].app == info(desktop[k].node))
    && ((forall k: nat :: !IsFrontmost(desktop, k)) ==> nodes == [])
  }

  lemma FrontmostRoot(desktop: seq<Child>, info: Accessible -> AppInfo, maxNodes: nat, maxDepth: nat, maxApps: nat)
    ensures maxNodes > 0 ==>
              RootIsFrontmost(desktop, info, Cap(FullWalk(FrontmostApp, desktop, info, maxDepth, maxApps), maxNodes))
  {
    hide FocusedApplication, IsFrontmost;
    FocusedIsFrontmost(desktop);
    var focused := FocusedApplication(desktop);
    forall k: nat | IsFrontmost(desktop, k)
      ensures focused.Some? && k < |desktop| && desktop[k] == Present(focused.value)
    {
      var j: nat :| j < |desktop| && IsFrontmost(desktop, j) && desktop[j] == Present(focused.value);
      FrontmostIsUnique(desktop, j, k);
    }
  }

  /** `capture`: the first `maxNodes` entries of the full walk. */
  method Capture(surface: Surface, desktop: seq<Child>, info: Accessible -> AppInfo,
                 maxNodes: nat, maxDepth: nat, maxApps: nat) returns (dump: Dump)
    ensures dump.nodes == Cap(FullWalk(surface, desktop, info, maxDepth, maxApps), maxNodes)
    ensures dump.truncated <==> |FullWalk(surface, desktop, info, maxDepth, maxApps)| >= maxNodes
    ensures dump.nodes == FullWalk(surface, desktop, info, maxDepth, maxApps) <==>
            |FullWalk(surface, desktop, info, maxDepth, maxApps)| <= maxNodes
    ensures ListsTheTree(surface, desktop, info, maxDepth, maxApps,
                         FullWalk(surface, desktop, info, maxDepth, maxApps))
    ensures surface == FrontmostApp && maxNodes > 0 ==> RootIsFrontmost(desktop, info, dump.nodes)
  {
    hide Preorder, Applications, FocusedApplication, ListsTheTree, RootIsFrontmost;
    WalkListsTheTree(surface, desktop, info, maxDepth, maxApps);
    FrontmostRoot(desktop, info, maxNodes, maxDepth, maxApps);
    var ctx := new Context(maxNodes, maxDepth);
    if surface == FrontmostApp {
      var focused := FocusedApplication(desktop);
      if focused.Some? {
        ctx.TraverseNode(focused.value, Root(info, focused.value));
        assert [] + Preorder(focused.value, Root(info, focused.value), 0, maxDepth)
            == Preorder(focused.value, Root(info, focused.value), 0, maxDepth);
      }
    } else {
      CaptureDesktop(ctx, FirstApps(desktop, maxApps), info);
    }
    dump := Dump(ctx.nodes, |ctx.nodes| >= maxNodes);
  }

  method CaptureDesktop(ctx: Context, apps: seq<Child>, info: Accessible -> AppInfo)
    requires ctx.nodes == []
    modifies ctx
    ensures ctx.nodes == Cap(Applications(apps, info, 0, ctx.maxDepth), ctx.maxNodes)
  {
    hide Preorder, Applications;
    NoApplications(apps, info, 0, ctx.maxDepth);
    for i := 0 to |apps|
      invariant |ctx.nodes| <= ctx.maxNodes
      invariant ctx.nodes == Cap(Applications(apps[..i], info, 0, ctx.maxDepth), ctx.maxNodes)
    {
      ApplicationsGrow(apps, i, info, ctx.maxDepth);
      ghost var done := Applications(apps[..i], info, 0, ctx.maxDepth);
      CapAbsorbs(done, OneApplication(apps[i], info, |done|, ctx.maxDepth), ctx.maxNodes);
      if |ctx.nodes| >= ctx.maxNodes {
        ApplicationsPrefix(apps, i, info, ctx.maxDepth);
        ghost var all := Applications(apps, info, 0, ctx.maxDepth);
        assert all == done + all[|done|..];
        CapAbsorbs(done, all[|done|..], ctx.maxNodes);
        return;
      }
      if apps[i].Missing? || apps[i].node.children == [] {
        continue;
      }
      ctx.TraverseNode(apps[i].node, Root(info, apps[i].node));
    }
    assert apps[..|apps|] == apps;
  }
}
