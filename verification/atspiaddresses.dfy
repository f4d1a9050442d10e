/**
 What a dump shows, said without the walk: which accessibles it lists, in which order, and what each
 entry says about the accessible at its address.
 */
module AtspiAddresses {
  import opened Wrappers
  import opened AtspiDump

  /** The slot of an application on the desktop, then child slots downwards. */
  type Address = seq<nat>

  /** The accessible an address leads to. */
  ghost function At(cs: seq<Child>, p: Address): Option<Accessible>
    decreases |p|
  {
    if p == [] || p[0] >= |cs| || cs[p[0]].Missing? then None
    else if |p| == 1 then Some(cs[p[0]].node)
    else At(cs[p[0]].node.children, p[1..])
  }

  /** Lexicographic order, a prefix first: the order of a preorder walk. */
  predicate Before(p: Address, q: Address)
    decreases |p|
  {
    q != [] && (p == [] || p[0] < q[0] || (p[0] == q[0] && Before(p[1..], q[1..])))
  }

  ghost predicate Increasing(ps: seq<Address>) {
    forall i, j :: 0 <= i < j < |ps| ==> Before(ps[i], ps[j])
  }

  // ---- which applications ----

  ghost predicate HasActiveChild(c: Child) {
    c.Present? &&
    exists j :: 0 <= j < |c.node.children| && c.node.children[j].Present? && c.node.children[j].node.active
  }

  ghost predicate HasChildren(c: Child) {
    c.Present? && c.node.children != []
  }

  /** Slot `k` is the first with an active child or, where no slot has one, the first with children. */
  ghost predicate IsFrontmost(desktop: seq<Child>, k: nat) {
    k < |desktop| &&
    if exists c :: c in desktop && HasActiveChild(c) then
      HasActiveChild(desktop[k]) && forall j :: 0 <= j < k ==> !HasActiveChild(desktop[j])
    else
      HasChildren(desktop[k]) && forall j :: 0 <= j < k ==> !HasChildren(desktop[j])
  }

  /** The application in slot `k` is one the capture looks at. */
  ghost predicate Chosen(surface: Surface, desktop: seq<Child>, maxApps: nat, k: nat) {
    match surface
    case Desktop => k < maxApps && k < |desktop| && HasChildren(desktop[k])
    case FrontmostApp => IsFrontmost(desktop, k)
  }

  // ---- what the entries say ----

  /** The role, or `unknown`; the name, else the description, else nothing. */
  ghost predicate Shows(e: Entry, a: Accessible) {
    && (a.role != "" ==> e.role == a.role)
    && (a.role == "" ==> e.role == "unknown")
    && (a.name != "" ==> e.text == Some(a.name))
    && (a.name == "" && a.description != "" ==> e.text == Some(a.description))
    && (a.name == "" && a.description == "" ==> e.text == None)
  }

  /** Entry `i` describes the accessible at its address and points to the entry of its parent. */
  ghost predicate Describes(desktop: seq<Child>, info: Accessible -> AppInfo, nodes: seq<Entry>, ps: seq<Address>,
                            i: nat)
    requires i < |nodes| == |ps|
  {
    var e, p := nodes[i], ps[i];
    && At(desktop, p).Some? && Shows(e, At(desktop, p).value)
    && e.index == i && e.depth == |p| - 1 && e.app == info(desktop[p[0]].node)
    && match e.parentIndex
       case None => |p| == 1
       case Some(k) => k < i && |p| > 1 && ps[k] == p[..|p| - 1]
  }

  ghost predicate Described(desktop: seq<Child>, info: Accessible -> AppInfo, nodes: seq<Entry>, ps: seq<Address>) {
    |nodes| == |ps| && forall i :: 0 <= i < |nodes| ==> Describes(desktop, info, nodes, ps, i)
  }

  /** The address leads to an accessible within the depth limit below an application the capture looks at. */
  ghost predicate Covered(surface: Surface, desktop: seq<Child>, maxDepth: nat, maxApps: nat, p: Address) {
    p != [] && At(desktop, p).Some? && |p| - 1 <= maxDepth && Chosen(surface, desktop, maxApps, p[0])
  }

  /** `ps` lists the addresses of everything the capture covers, in order. */
  ghost predicate Covers(surface: Surface, desktop: seq<Child>, maxDepth: nat, maxApps: nat, ps: seq<Address>) {
    Increasing(ps) && forall p :: p in ps <==> Covered(surface, desktop, maxDepth, maxApps, p)
  }

  // ---- the addresses of a walk ----

  ghost function Paths(a: Accessible, p: Address, maxDepth: nat): seq<Address>
    decreases a, 1
  {
    if |p| - 1 > maxDepth then [] else [p] + PathsBelow(a.children, p, maxDepth)
  }

  ghost function PathsBelow(cs: seq<Child>, p: Address, maxDepth: nat): seq<Address>
    decreases cs, 0
  {
    if cs == [] then []
    else
      var n := |cs| - 1;
      PathsBelow(cs[..n], p, maxDepth) + PathsInSlot(cs[n], p + [n], maxDepth)
  }

  ghost function PathsInSlot(c: Child, p: Address, maxDepth: nat): seq<Address>
    decreases c, 2
  {
    match c
    case Missing => []
    case Present(a) => Paths(a, p, maxDepth)
  }

  // ---- which addresses they are ----

  /** From `a`, the rest of an address leads somewhere. */
  ghost predicate LeadsOn(a: Accessible, rest: Address) {
    rest == [] || At(a.children, rest).Some?
  }

  lemma {:induction false} PathsAre(a: Accessible, p: Address, maxDepth: nat, q: Address)
    ensures q in Paths(a, p, maxDepth) <==> p <= q && |q| - 1 <= maxDepth && LeadsOn(a, q[|p|..])
    decreases a, 1
  {
    PathsBelowAre(a.children, p, maxDepth, q);
    if p <= q && |q| == |p| {
      assert q == p && q[|p|..] == [];
    }
  }

  lemma {:induction false} PathsBelowAre(cs: seq<Child>, p: Address, maxDepth: nat, q: Address)
    ensures q in PathsBelow(cs, p, maxDepth) <==> p <= q && |q| - 1 <= maxDepth && At(cs, q[|p|..]).Some?
    decreases cs, 0
  {
    if cs != [] {
      var n := |cs| - 1;
      PathsBelowAre(cs[..n], p, maxDepth, q);
      PathsInSlotAre(cs[n], p + [n], maxDepth, q);
      if p <= q {
        LastSlot(cs, q[|p|..]);
        if p + [n] <= q {
          assert q[|p|..][1..] == q[|p + [n]|..];
        }
      }
    }
  }

  lemma {:induction false} PathsInSlotAre(c: Child, p: Address, maxDepth: nat, q: Address)
    ensures q in PathsInSlot(c, p, maxDepth) <==>
            c.Present? && p <= q && |q| - 1 <= maxDepth && LeadsOn(c.node, q[|p|..])
    decreases c, 2
  {
    if c.Present? {
      PathsAre(c.node, p, maxDepth, q);
    }
  }

  /** An address leads through the last slot or through an earlier one. */
  lemma LastSlot(cs: seq<Child>, r: Address)
    requires cs != []
    ensures var n := |cs| - 1;
      At(cs, r).Some? <==>
        At(cs[..n], r).Some? || (r != [] && r[0] == n && cs[n].Present? && LeadsOn(cs[n].node, r[1..]))
  {
  }

  // ---- in which order ----

  lemma {:induction false} PrefixBefore(p: Address, q: Address)
    requires p <= q && p != q
    ensures Before(p, q)
    decreases |p|
  {
    if p != [] {
      PrefixBefore(p[1..], q[1..]);
    }
  }

  lemma {:induction false} ForkBefore(p: Address, q: Address, r: Address)
    requires p <= q && p <= r && |p| < |q| && |p| < |r| && q[|p|] < r[|p|]
    ensures Before(q, r)
    decreases |p|
  {
    if p != [] {
      ForkBefore(p[1..], q[1..], r[1..]);
    }
  }

  lemma {:induction false} PathsIncrease(a: Accessible, p: Address, maxDepth: nat)
    ensures Increasing(Paths(a, p, maxDepth))
    decreases a, 1
  {
    hide PathsBelow, Before;
    if |p| - 1 <= maxDepth {
      PathsBelowIncrease(a.children, p, maxDepth);
      var rest := PathsBelow(a.children, p, maxDepth);
      forall j | 0 <= j < |rest|
        ensures Before(p, rest[j])
      {
        PathsBelowAre(a.children, p, maxDepth, rest[j]);
        PrefixBefore(p, rest[j]);
      }
    }
  }

  lemma {:induction false} PathsBelowIncrease(cs: seq<Child>, p: Address, maxDepth: nat)
    ensures Increasing(PathsBelow(cs, p, maxDepth))
    decreases cs, 0
  {
    hide Before, At, PathsInSlot;
    if cs != [] {
      var n := |cs| - 1;
      var early, late := PathsBelow(cs[..n], p, maxDepth), PathsInSlot(cs[n], p + [n], maxDepth);
      PathsBelowIncrease(cs[..n], p, maxDepth);
      SlotIncreases(cs[n], p + [n], maxDepth);
      forall i, j | 0 <= i < |early| && 0 <= j < |late|
        ensures Before(early[i], late[j])
      {
        PathsBelowAre(cs[..n], p, maxDepth, early[i]);
        PathsInSlotAre(cs[n], p + [n], maxDepth, late[j]);
        StartsWithin(cs[..n], early[i][|p|..]);
        ForkBefore(p, early[i], late[j]);
      }
    }
  }

  lemma {:induction false} SlotIncreases(c: Child, p: Address, maxDepth: nat)
    ensures Increasing(PathsInSlot(c, p, maxDepth))
    decreases c, 2
  {
    if c.Present? {
      PathsIncrease(c.node, p, maxDepth);
    }
  }

  lemma StartsWithin(cs: seq<Child>, r: Address)
    requires At(cs, r).Some?
    ensures r != [] && r[0] < |cs|
  {
  }

  // ---- what the walk says at them ----

  /** A subtree at address `p` is walked from a place that fits what has been emitted before. */
  ghost predicate Fits(desktop: seq<Child>, info: Accessible -> AppInfo, bps: seq<Address>, p: Address, at: Place) {
    && At(desktop, p).Some? && at.depth == |p| - 1 && at.app == info(desktop[p[0]].node)
    && match at.parent
       case None => |p| == 1
       case Some(k) => k < |bps| && |p| > 1 && bps[k] == p[..|p| - 1]
  }

  lemma {:induction false} AtChild(cs: seq<Child>, p: Address, n: nat)
    requires At(cs, p).Some?
    ensures At(cs, p + [n]) ==
            if n < |At(cs, p).value.children| && At(cs, p).value.children[n].Present?
            then Some(At(cs, p).value.children[n].node) else None
    decreases |p|
  {
    assert (p + [n])[1..] == p[1..] + [n];
    if |p| > 1 {
      AtChild(cs[p[0]].node.children, p[1..], n);
    } else {
      assert p[1..] + [n] == [n];
    }
  }

  lemma DescribesMore(desktop: seq<Child>, info: Accessible -> AppInfo, before: seq<Entry>, bps: seq<Address>,
                      e: Entry, p: Address)
    requires Described(desktop, info, before, bps)
    requires Describes(desktop, info, before + [e], bps + [p], |before|)
    ensures Described(desktop, info, before + [e], bps + [p])
  {
    hide At, Shows;
    forall i | 0 <= i < |before|
      ensures Describes(desktop, info, before + [e], bps + [p], i)
    {
      assert Describes(desktop, info, before, bps, i);
    }
  }

  lemma EntryDescribes(desktop: seq<Child>, info: Accessible -> AppInfo, before: seq<Entry>, bps: seq<Address>,
                       p: Address, at: Place)
    requires |before| == |bps| && Fits(desktop, info, bps, p, at)
    ensures Describes(desktop, info, before + [EntryFor(At(desktop, p).value, at, |before|)], bps + [p], |before|)
  {
    hide At;
  }

  lemma {:induction false} PreorderDescribed(desktop: seq<Child>, info: Accessible -> AppInfo, before: seq<Entry>,
                                             bps: seq<Address>, a: Accessible, p: Address, at: Place, maxDepth: nat)
    requires Described(desktop, info, before, bps) && Fits(desktop, info, bps, p, at) && At(desktop, p) == Some(a)
    ensures Described(desktop, info, before + Preorder(a, at, |before|, maxDepth), bps + Paths(a, p, maxDepth))
    decreases a, 1
  {
    hide At, Shows, Siblings, PathsBelow, EntryFor, Described, Describes;
    SameLength(desktop, info, before, bps);
    if at.depth <= maxDepth {
      var e, below := EntryFor(a, at, |before|), Below(a, at, |before|);
      EntryDescribes(desktop, info, before, bps, p, at);
      DescribesMore(desktop, info, before, bps, e, p);
      SiblingsDescribed(desktop, info, before + [e], bps + [p], a.children, p, below, maxDepth);
      var tail, paths := Siblings(a.children, below, |before| + 1, maxDepth), PathsBelow(a.children, p, maxDepth);
      assert before + ([e] + tail) == (before + [e]) + tail && bps + ([p] + paths) == (bps + [p]) + paths;
    } else {
      assert before + [] == before && bps + [] == bps;
    }
  }

  lemma SameLength(desktop: seq<Child>, info: Accessible -> AppInfo, nodes: seq<Entry>, ps: seq<Address>)
    requires Described(desktop, info, nodes, ps)
    ensures |nodes| == |ps|
  {
  }

  /** The place below an accessible, when `cs` are the first of its children. */
  ghost predicate FitsBelow(desktop: seq<Child>, info: Accessible -> AppInfo, bps: seq<Address>, p: Address, at: Place,
                            cs: seq<Child>) {
    && At(desktop, p).Some? && cs <= At(desktop, p).value.children
    && at.depth == |p| && at.app == info(desktop[p[0]].node)
    && at.parent.Some? && at.parent.value < |bps| && bps[at.parent.value] == p
  }

  lemma FitsInSlot(desktop: seq<Child>, info: Accessible -> AppInfo, bps: seq<Address>, more: seq<Address>, p: Address,
                   at: Place, cs: seq<Child>)
    requires FitsBelow(desktop, info, bps, p, at, cs) && cs != [] && cs[|cs| - 1].Present?
    ensures At(desktop, p + [|cs| - 1]) == Some(cs[|cs| - 1].node)
    ensures Fits(desktop, info, bps + more, p + [|cs| - 1], at)
  {
    AtChild(desktop, p, |cs| - 1);
    assert (p + [|cs| - 1])[..|p|] == p;
  }

  lemma {:induction false} SiblingsDescribed(desktop: seq<Child>, info: Accessible -> AppInfo, before: seq<Entry>,
                                             bps: seq<Address>, cs: seq<Child>, p: Address, at: Place, maxDepth: nat)
    requires Described(desktop, info, before, bps) && FitsBelow(desktop, info, bps, p, at, cs)
    ensures Described(desktop, info, before + Siblings(cs, at, |before|, maxDepth), bps + PathsBelow(cs, p, maxDepth))
    decreases cs, 0
  {
    hide At, Slot, PathsInSlot, Described;
    if cs == [] {
      assert before + [] == before && bps + [] == bps;
    } else {
      var n := |cs| - 1;
      var done, paths := Siblings(cs[..n], at, |before|, maxDepth), PathsBelow(cs[..n], p, maxDepth);
      SiblingsDescribed(desktop, info, before, bps, cs[..n], p, at, maxDepth);
      SlotDescribed(desktop, info, before + done, bps, paths, cs, p, at, maxDepth);
      var last, ends := Slot(cs[n], at, |before + done|, maxDepth), PathsInSlot(cs[n], p + [n], maxDepth);
      assert before + (done + last) == (before + done) + last && bps + (paths + ends) == (bps + paths) + ends;
    }
  }

  lemma {:induction false} SlotDescribed(desktop: seq<Child>, info: Accessible -> AppInfo, before: seq<Entry>,
                                         bps: seq<Address>, more: seq<Address>, cs: seq<Child>, p: Address, at: Place,
                                         maxDepth: nat)
    requires Described(desktop, info, before, bps + more) && FitsBelow(desktop, info, bps, p, at, cs) && cs != []
    ensures var n := |cs| - 1;
      Described(desktop, info, before + Slot(cs[n], at, |before|, maxDepth),
                bps + more + PathsInSlot(cs[n], p + [n], maxDepth))
    decreases cs[|cs| - 1], 2
  {
    hide At, Preorder, Paths, Described;
    match cs[|cs| - 1] {
      case Missing => assert before + [] == before && bps + more + [] == bps + more;
      case Present(a) =>
        FitsInSlot(desktop, info, bps, more, p, at, cs);
        PreorderDescribed(desktop, info, before, bps + more, a, p + [|cs| - 1], at, maxDepth);
    }
  }

  // ---- whole captures ----

  ghost function PathsInApp(c: Child, k: nat, maxDepth: nat): seq<Address> {
    if HasChildren(c) then Paths(c.node, [k], maxDepth) else []
  }

  ghost function PathsInApps(apps: seq<Child>, maxDepth: nat): seq<Address> {
    if apps == [] then []
    else PathsInApps(apps[..|apps| - 1], maxDepth) + PathsInApp(apps[|apps| - 1], |apps| - 1, maxDepth)
  }

  lemma AppAddress(desktop: seq<Child>, k: nat, p: Address)
    requires k < |desktop| && desktop[k].Present?
    ensures At(desktop, [k]) == Some(desktop[k].node)
    ensures [k] <= p ==> (At(desktop, p).Some? <==> LeadsOn(desktop[k].node, p[1..]))
  {
  }

  lemma {:induction false} AppsDescribed(desktop: seq<Child>, info: Accessible -> AppInfo, n: nat, maxDepth: nat)
    requires n <= |desktop|
    ensures Described(desktop, info, Applications(desktop[..n], info, 0, maxDepth), PathsInApps(desktop[..n], maxDepth))
  {
    hide At, Preorder, Paths, Describes;
    if n > 0 {
      assert desktop[..n][..n - 1] == desktop[..n - 1];
      AppsDescribed(desktop, info, n - 1, maxDepth);
      var c := desktop[n - 1];
      var before, bps := Applications(desktop[..n - 1], info, 0, maxDepth), PathsInApps(desktop[..n - 1], maxDepth);
      if HasChildren(c) {
        AppAddress(desktop, n - 1, [n - 1]);
        PreorderDescribed(desktop, info, before, bps, c.node, [n - 1], Root(info, c.node), maxDepth);
      } else {
        assert before + [] == before && bps + [] == bps;
      }
    }
  }

  lemma {:induction false} AppsCovered(desktop: seq<Child>, n: nat, maxDepth: nat, p: Address)
    requires n <= |desktop|
    ensures p in PathsInApps(desktop[..n], maxDepth) <==>
            p != [] && At(desktop, p).Some? && |p| - 1 <= maxDepth && p[0] < n && HasChildren(desktop[p[0]])
  {
    hide Paths;
    if n > 0 {
      assert desktop[..n][..n - 1] == desktop[..n - 1];
      AppsCovered(desktop, n - 1, maxDepth, p);
      if HasChildren(desktop[n - 1]) {
        AppAddress(desktop, n - 1, p);
        PathsAre(desktop[n - 1].node, [n - 1], maxDepth, p);
      }
    }
  }

  lemma {:induction false} AppsIncrease(desktop: seq<Child>, n: nat, maxDepth: nat)
    requires n <= |desktop|
    ensures Increasing(PathsInApps(desktop[..n], maxDepth))
  {
    hide At, Paths, Before;
    if n > 0 {
      assert desktop[..n][..n - 1] == desktop[..n - 1];
      AppsIncrease(desktop, n - 1, maxDepth);
      var early, late := PathsInApps(desktop[..n - 1], maxDepth), PathsInApp(desktop[n - 1], n - 1, maxDepth);
      if HasChildren(desktop[n - 1]) {
        PathsIncrease(desktop[n - 1].node, [n - 1], maxDepth);
        forall i, j | 0 <= i < |early| && 0 <= j < |late|
          ensures Before(early[i], late[j])
        {
          AppsCovered(desktop, n - 1, maxDepth, early[i]);
          PathsAre(desktop[n - 1].node, [n - 1], maxDepth, late[j]);
          StartsWithin(desktop, early[i]);
          ForkBefore([], early[i], late[j]);
        }
      }
    }
  }

  /** The application the dump looks at is the frontmost one, said without the search. */
  lemma FocusedIsFrontmost(desktop: seq<Child>)
    ensures match FocusedApplication(desktop)
      case Some(app) => exists k: nat :: k < |desktop| && IsFrontmost(desktop, k) && desktop[k] == Present(app)
      case None => forall k: nat :: !IsFrontmost(desktop, k)
  {
    hide FirstWhere;
    forall c
      ensures HasActiveChild(c) <==> c.Present? && HasActiveWindow(c.node)
    {
      ActiveAgrees(c);
    }
    var active := FirstWhere(desktop, HasActiveWindow);
    var filled := FirstWhere(desktop, (app: Accessible) => app.children != []);
    if active.Some? {
      var k :| 0 <= k < |desktop| && desktop[k] == Present(active.value) && HasActiveWindow(active.value) &&
        NoneBefore(desktop, HasActiveWindow, k);
      assert HasActiveChild(desktop[k]) && desktop[k] in desktop;
      assert forall j :: 0 <= j < k ==> desktop[j] in desktop;
      assert IsFrontmost(desktop, k);
    } else {
      NoActive(desktop);
      if filled.Some? {
        FirstFilled(desktop, filled.value);
      }
    }
  }

  lemma ActiveAgrees(c: Child)
    ensures HasActiveChild(c) <==> c.Present? && HasActiveWindow(c.node)
  {
  }

  lemma NoActive(desktop: seq<Child>)
    requires FirstWhere(desktop, HasActiveWindow).None?
    ensures forall c :: c in desktop ==> !HasActiveChild(c)
  {
    hide FirstWhere;
    forall c | c in desktop
      ensures !HasActiveChild(c)
    {
      ActiveAgrees(c);
      assert c.Present? ==> c == Present(c.node);
    }
  }

  lemma FirstFilled(desktop: seq<Child>, app: Accessible)
    requires forall c :: c in desktop ==> !HasActiveChild(c)
    requires FirstWhere(desktop, (app: Accessible) => app.children != []) == Some(app)
    ensures exists k: nat :: IsFrontmost(desktop, k) && desktop[k] == Present(app)
  {
    hide FirstWhere, HasActiveChild;
    var p := (app: Accessible) => app.children != [];
    var k :| 0 <= k < |desktop| && desktop[k] == Present(app) && p(app) && NoneBefore(desktop, p, k);
    assert IsFrontmost(desktop, k);
  }

  lemma FrontmostIsUnique(desktop: seq<Child>, j: nat, k: nat)
    requires IsFrontmost(desktop, j) && IsFrontmost(desktop, k)
    ensures j == k
  {
    hide HasActiveChild, HasChildren;
  }

  /** The walk lists exactly the addresses the capture covers, in order, and describes what is there. */
  ghost predicate ListsTheTree(surface: Surface, desktop: seq<Child>, info: Accessible -> AppInfo, maxDepth: nat,
                               maxApps: nat, nodes: seq<Entry>) {
    exists ps :: Covers(surface, desktop, maxDepth, maxApps, ps) && Described(desktop, info, nodes, ps)
  }

  lemma DesktopListed(desktop: seq<Child>, info: Accessible -> AppInfo, maxDepth: nat, maxApps: nat)
    ensures ListsTheTree(Desktop, desktop, info, maxDepth, maxApps, FullWalk(Desktop, desktop, info, maxDepth, maxApps))
  {
    hide At, Described, Increasing, Applications, PathsInApps;
    var n := if |desktop| <= maxApps then |desktop| else maxApps;
    assert FirstApps(desktop, maxApps) == desktop[..n];
    var ps := PathsInApps(desktop[..n], maxDepth);
    AppsIncrease(desktop, n, maxDepth);
    forall p
      ensures p in ps <==> Covered(Desktop, desktop, maxDepth, maxApps, p)
    {
      AppsCovered(desktop, n, maxDepth, p);
    }
    AppsDescribed(desktop, info, n, maxDepth);
    assert Covers(Desktop, desktop, maxDepth, maxApps, ps);
  }

  lemma FrontmostListed(desktop: seq<Child>, info: Accessible -> AppInfo, maxDepth: nat, maxApps: nat)
    ensures ListsTheTree(FrontmostApp, desktop, info, maxDepth, maxApps,
                         FullWalk(FrontmostApp, desktop, info, maxDepth, maxApps))
  {
    hide At, Describes, Preorder, Paths, FocusedApplication, IsFrontmost, Before;
    FocusedIsFrontmost(desktop);
    match FocusedApplication(desktop) {
      case None =>
        assert forall p :: !Covered(FrontmostApp, desktop, maxDepth, maxApps, p);
        assert Covers(FrontmostApp, desktop, maxDepth, maxApps, []);
        assert Described(desktop, info, [], []);
      case Some(app) =>
        var k: nat :| k < |desktop| && IsFrontmost(desktop, k) && desktop[k] == Present(app);
        OneAppListed(desktop, info, k, maxDepth, maxApps);
    }
  }

  lemma OneAppListed(desktop: seq<Child>, info: Accessible -> AppInfo, k: nat, maxDepth: nat, maxApps: nat)
    requires IsFrontmost(desktop, k)
    ensures desktop[k].Present?
    ensures ListsTheTree(FrontmostApp, desktop, info, maxDepth, maxApps,
                         Preorder(desktop[k].node, Root(info, desktop[k].node), 0, maxDepth))
  {
    hide At, Describes, Preorder, Paths, Before;
    assert desktop[k].Present?;
    hide IsFrontmost;
    var app := desktop[k].node;
    var nodes, ps := Preorder(app, Root(info, app), 0, maxDepth), Paths(app, [k], maxDepth);
    PathsIncrease(app, [k], maxDepth);
    forall p
      ensures p in ps <==> Covered(FrontmostApp, desktop, maxDepth, maxApps, p)
    {
      PathsAre(app, [k], maxDepth, p);
      AppAddress(desktop, k, p);
      if p != [] && IsFrontmost(desktop, p[0]) {
        FrontmostIsUnique(desktop, k, p[0]);
      }
    }
    AppAddress(desktop, k, [k]);
    PreorderDescribed(desktop, info, [], [], app, [k], Root(info, app), maxDepth);
    assert [] + nodes == nodes && [] + ps == ps;
    assert Covers(FrontmostApp, desktop, maxDepth, maxApps, ps);
  }

  /**
   Whatever the surface and the limits, the full walk lists exactly the accessibles within the depth limit
   below the applications the capture looks at, in lexicographic order of their addresses, and each entry
   says what its accessible says and points to its parent. The dump is the first `maxNodes` of them.
   */
  lemma WalkListsTheTree(surface: Surface, desktop: seq<Child>, info: Accessible -> AppInfo, maxDepth: nat,
                         maxApps: nat)
    ensures ListsTheTree(surface, desktop, info, maxDepth, maxApps,
                         FullWalk(surface, desktop, info, maxDepth, maxApps))
  {
    match surface {
      case Desktop => DesktopListed(desktop, info, maxDepth, maxApps);
      case FrontmostApp => FrontmostListed(desktop, info, maxDepth, maxApps);
    }
  }
}
