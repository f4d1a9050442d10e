/** The bounded accessibility-tree dump of linux/atspi-dump.py. */
module AtspiDump {
  import opened Wrappers

  /** A child slot answers with an accessible, or with nothing (`None` or a raised exception). */
  datatype Child = Missing | Present(node: Accessible)

  /** An accessible after the dumper's own fallbacks: strings are empty where AT-SPI has none. */
  datatype Accessible = Accessible(role: string, name: string, description: string, active: bool, children: seq<Child>)

  datatype AppInfo = AppInfo(appName: Option<string>, pid: Option<int>)

  datatype Entry = Entry(index: nat, role: string, text: Option<string>, depth: nat, parentIndex: Option<nat>,
                         app: AppInfo, windowTitle: Option<string>)

  function RoleOf(a: Accessible): string {
    if a.role == "" then "unknown" else a.role
  }

  /** `name or description or None` */
  function LabelOf(a: Accessible): Option<string> {
    if a.name != "" then Some(a.name) else if a.description != "" then Some(a.description) else None
  }

  predicate IsWindowRole(role: string) {
    role == "frame" || role == "window" || role == "dialog"
  }

  function TitleFor(inherited: Option<string>, role: string, text: Option<string>): Option<string> {
    if inherited.None? && IsWindowRole(role) then text else inherited
  }

  /** What a walk carries down: where it is, and what it inherits. */
  datatype Place = Place(depth: nat, parent: Option<nat>, app: AppInfo, title: Option<string>)

  function EntryFor(a: Accessible, at: Place, index: nat): Entry {
    Entry(index, RoleOf(a), LabelOf(a), at.depth, at.parent, at.app, TitleFor(at.title, RoleOf(a), LabelOf(a)))
  }

  function Below(a: Accessible, at: Place, index: nat): Place {
    Place(at.depth + 1, Some(index), at.app, TitleFor(at.title, RoleOf(a), LabelOf(a)))
  }

  // ---- the unbounded preorder ----

  /** The whole subtree in preorder, cut only at the depth limit, numbered from `start`. */
  function Preorder(a: Accessible, at: Place, start: nat, maxDepth: nat): seq<Entry>
    decreases a, 1
  {
    if at.depth > maxDepth then []
    else [EntryFor(a, at, start)] + Siblings(a.children, Below(a, at, start), start + 1, maxDepth)
  }

  function Siblings(cs: seq<Child>, at: Place, start: nat, maxDepth: nat): seq<Entry>
    decreases cs, 0
  {
    if cs == [] then []
    else
      var before := Siblings(cs[..|cs| - 1], at, start, maxDepth);
      before + Slot(cs[|cs| - 1], at, start + |before|, maxDepth)
  }

  function Slot(c: Child, at: Place, start: nat, maxDepth: nat): seq<Entry>
    decreases c, 2
  {
    match c
    case Missing => []
    case Present(a) => Preorder(a, at, start, maxDepth)
  }

  // ---- the bounded walk ----

  /** The first `limit` entries. */
  function Cap(s: seq<Entry>, limit: nat): seq<Entry> {
    if |s| <= limit then s else s[..limit]
  }

  class Context {
    const maxNodes: nat
    const maxDepth: nat
    var nodes: seq<Entry>

    constructor (maxNodes: nat, maxDepth: nat)
      ensures this.maxNodes == maxNodes && this.maxDepth == maxDepth && nodes == []
    {
      this.maxNodes, this.maxDepth, nodes := maxNodes, maxDepth, [];
    }

    /** `traverse_node` */
    method TraverseNode(a: Accessible, at: Place)
      requires |nodes| <= maxNodes
      modifies this
      ensures |nodes| <= maxNodes
      ensures nodes == Cap(old(nodes) + Preorder(a, at, |old(nodes)|, maxDepth), maxNodes)
      decreases a
    {
      hide Siblings, EntryFor, Below;
      if |nodes| >= maxNodes || at.depth > maxDepth {
        return;
      }
      var index := |nodes|;
      nodes := nodes + [EntryFor(a, at, index)];
      ghost var base := nodes;
      var below := Below(a, at, index);
      NoSiblings(a.children, below, index + 1, maxDepth);
      for i := 0 to |a.children|
        invariant |nodes| <= maxNodes
        invariant nodes == Cap(base + Siblings(a.children[..i], below, index + 1, maxDepth), maxNodes)
      {
        SiblingsGrow(a.children, i, below, index + 1, maxDepth);
        ghost var done := Siblings(a.children[..i], below, index + 1, maxDepth);
        ghost var next := Slot(a.children[i], below, index + 1 + |done|, maxDepth);
        assert base + (done + next) == (base + done) + next;
        CapAbsorbs(base + done, next, maxNodes);
        if |nodes| >= maxNodes {
          SiblingsPrefix(a.children, i, below, index + 1, maxDepth);
          ghost var rest := Siblings(a.children, below, index + 1, maxDepth)[|done|..];
          assert base + Siblings(a.children, below, index + 1, maxDepth) == (base + done) + rest;
          CapAbsorbs(base + done, rest, maxNodes);
          SubtreeSplits(old(nodes), a, at, maxDepth);
          return;
        }
        match a.children[i] {
          case Missing =>
          case Present(child) => TraverseNode(child, below);
        }
      }
      assert a.children[..|a.children|] == a.children;
      SubtreeSplits(old(nodes), a, at, maxDepth);
    }
  }

  lemma NoSiblings(cs: seq<Child>, at: Place, start: nat, maxDepth: nat)
    ensures Siblings(cs[..0], at, start, maxDepth) == []
  {
  }

  lemma SubtreeSplits(before: seq<Entry>, a: Accessible, at: Place, maxDepth: nat)
    requires at.depth <= maxDepth
    ensures before + Preorder(a, at, |before|, maxDepth) ==
            (before + [EntryFor(a, at, |before|)]) +
            Siblings(a.children, Below(a, at, |before|), |before| + 1, maxDepth)
  {
  }

  lemma {:induction false} SiblingsPrefix(cs: seq<Child>, i: nat, at: Place, start: nat, maxDepth: nat)
    requires i <= |cs|
    ensures Siblings(cs[..i], at, start, maxDepth) <= Siblings(cs, at, start, maxDepth)
  {
    if i < |cs| {
      var n := |cs| - 1;
      SiblingsPrefix(cs[..n], i, at, start, maxDepth);
      assert cs[..n][..i] == cs[..i];
    } else {
      assert cs[..i] == cs;
    }
  }

  lemma SiblingsGrow(cs: seq<Child>, i: nat, at: Place, start: nat, maxDepth: nat)
    requires i < |cs|
    ensures var done := Siblings(cs[..i], at, start, maxDepth);
      Siblings(cs[..i + 1], at, start, maxDepth) == done + Slot(cs[i], at, start + |done|, maxDepth)
  {
    assert cs[..i + 1][..i] == cs[..i];
  }

  /** Once the cap is reached nothing more is added; before that nothing has been dropped. */
  lemma CapAbsorbs(s: seq<Entry>, more: seq<Entry>, limit: nat)
    ensures |Cap(s, limit)| < limit ==> Cap(s, limit) == s
    ensures |Cap(s, limit)| == limit ==> Cap(s + more, limit) == Cap(s, limit)
  {
  }

  // ---- capture ----

  predicate HasActiveWindow(app: Accessible) {
    exists j :: 0 <= j < |app.children| && app.children[j].Present? && app.children[j].node.active
  }

  /** The first application with an active window, else the first one with children. */
  function FocusedApplication(desktop: seq<Child>): Option<Accessible> {
    var active := FirstWhere(desktop, HasActiveWindow);
    if active.Some? then active else FirstWhere(desktop, (app: Accessible) => app.children != [])
  }

  ghost predicate NoneBefore(desktop: seq<Child>, p: Accessible -> bool, k: nat)
    requires k <= |desktop|
  {
    forall j :: 0 <= j < k && desktop[j].Present? ==> !p(desktop[j].node)
  }

  function FirstWhere(desktop: seq<Child>, p: Accessible -> bool): (r: Option<Accessible>)
    ensures r.Some? ==>
              exists k :: 0 <= k < |desktop| && desktop[k] == Present(r.value) && p(r.value) &&
                          NoneBefore(desktop, p, k)
    ensures r.None? ==> forall a :: Present(a) in desktop ==> !p(a)
  {
    if desktop == [] then None
    else if desktop[0].Present? && p(desktop[0].node) then
      assert NoneBefore(desktop, p, 0);
      Some(desktop[0].node)
    else
      var r := FirstWhere(desktop[1..], p);
      assert forall k :: 0 <= k < |desktop[1..]| && NoneBefore(desktop[1..], p, k) ==> NoneBefore(desktop, p, k + 1);
      r
  }

  datatype Surface = Desktop | FrontmostApp

  datatype Dump = Dump(nodes: seq<Entry>, truncated: bool)

  function Root(info: Accessible -> AppInfo, app: Accessible): Place {
    Place(0, None, info(app), None)
  }

  /** The unbounded dump of the applications a desktop capture looks at, numbered from `start`. */
  function Applications(apps: seq<Child>, info: Accessible -> AppInfo, start: nat, maxDepth: nat): seq<Entry> {
    if apps == [] then []
    else
      var before := Applications(apps[..|apps| - 1], info, start, maxDepth);
      before + OneApplication(apps[|apps| - 1], info, start + |before|, maxDepth)
  }

  function OneApplication(c: Child, info: Accessible -> AppInfo, start: nat, maxDepth: nat): seq<Entry> {
    if c.Missing? || c.node.children == [] then [] else Preorder(c.node, Root(info, c.node), start, maxDepth)
  }

  function FirstApps(desktop: seq<Child>, maxApps: nat): seq<Child> {
    if |desktop| <= maxApps then desktop else desktop[..maxApps]
  }

  /** Everything the walk would emit with no node cap. */
  function FullWalk(surface: Surface, desktop: seq<Child>, info: Accessible -> AppInfo, maxDepth: nat,
                    maxApps: nat): seq<Entry> {
    match surface
    case Desktop => Applications(FirstApps(desktop, maxApps), info, 0, maxDepth)
    case FrontmostApp =>
      match FocusedApplication(desktop)
      case None => []
      case Some(app) => Preorder(app, Root(info, app), 0, maxDepth)
  }

  /** A walk that fits exactly is uncut and still counted as truncated: one childless window, one node allowed. */
  lemma ExactFitCountsAsTruncated(info: Accessible -> AppInfo)
    ensures exists desktop: seq<Child>, maxNodes: nat ::
      var full := FullWalk(FrontmostApp, desktop, info, 0, 1);
      |full| >= maxNodes && Cap(full, maxNodes) == full && maxNodes > 0
  {
    var window := Accessible("frame", "", "", true, []);
    var app := Accessible("application", "", "", false, [Present(window)]);
    var desktop := [Present(app)];
    assert app.children[0].node.active && HasActiveWindow(app);
    assert FocusedApplication(desktop) == Some(app);
    var at := Below(app, Root(info, app), 0);
    assert Slot(Present(window), at, 1, 0) == [];
    assert Siblings(app.children, at, 1, 0) == Siblings([], at, 1, 0) + [];
    var full := FullWalk(FrontmostApp, desktop, info, 0, 1);
    assert full == [EntryFor(app, Root(info, app), 0)];
    assert |full| >= 1 && Cap(full, 1) == full;
  }

  lemma NoApplications(apps: seq<Child>, info: Accessible -> AppInfo, start: nat, maxDepth: nat)
    ensures Applications(apps[..0], info, start, maxDepth) == []
  {
  }

  lemma ApplicationsGrow(apps: seq<Child>, i: nat, info: Accessible -> AppInfo, maxDepth: nat)
    requires i < |apps|
    ensures var done := Applications(apps[..i], info, 0, maxDepth);
      Applications(apps[..i + 1], info, 0, maxDepth) == done + OneApplication(apps[i], info, |done|, maxDepth)
  {
    assert apps[..i + 1][..i] == apps[..i];
  }

  lemma {:induction false} ApplicationsPrefix(apps: seq<Child>, i: nat, info: Accessible -> AppInfo, maxDepth: nat)
    requires i <= |apps|
    ensures Applications(apps[..i], info, 0, maxDepth) <= Applications(apps, info, 0, maxDepth)
  {
    hide OneApplication;
    if i < |apps| {
      var n := |apps| - 1;
      ApplicationsPrefix(apps[..n], i, info, maxDepth);
      assert apps[..n][..i] == apps[..i];
    } else {
      assert apps[..i] == apps;
    }
  }

  // ---- what every emitted list looks like ----

  /** Entry `i` is numbered `i`; its parent is an earlier entry one level up, or it is a root. */
  ghost predicate Linked(nodes: seq<Entry>, i: nat)
    requires i < |nodes|
  {
    var e := nodes[i];
    && e.index == i
    && match e.parentIndex
       case None => e.depth == 0 && e.windowTitle == TitleFor(None, e.role, e.text)
       case Some(p) => p < i && e.depth == nodes[p].depth + 1 && e.app == nodes[p].app
                       && e.windowTitle == TitleFor(nodes[p].windowTitle, e.role, e.text)
  }

  ghost predicate AllLinked(nodes: seq<Entry>) {
    forall i :: 0 <= i < |nodes| ==> Linked(nodes, i)
  }

  ghost predicate WellLinked(nodes: seq<Entry>, maxDepth: nat) {
    AllLinked(nodes) && forall i :: 0 <= i < |nodes| ==> nodes[i].depth <= maxDepth
  }

  /** The place a subtree is walked from matches what has been emitted before it. */
  ghost predicate Anchored(before: seq<Entry>, at: Place) {
    match at.parent
    case None => at.depth == 0 && at.title == None
    case Some(p) => p < |before| && at.depth == before[p].depth + 1
                    && at.app == before[p].app && at.title == before[p].windowTitle
  }

  lemma LinkedAppend(before: seq<Entry>, e: Entry, maxDepth: nat)
    requires WellLinked(before, maxDepth) && e.depth <= maxDepth
    requires Linked(before + [e], |before|)
    ensures WellLinked(before + [e], maxDepth)
  {
    var more := before + [e];
    forall i | 0 <= i < |more|
      ensures Linked(more, i)
    {
      if i < |before| {
        assert Linked(before, i) && more[i] == before[i];
      }
    }
  }

  lemma {:induction false} PreorderLinked(before: seq<Entry>, a: Accessible, at: Place, maxDepth: nat)
    requires WellLinked(before, maxDepth) && Anchored(before, at)
    ensures WellLinked(before + Preorder(a, at, |before|, maxDepth), maxDepth)
    decreases a, 1
  {
    if at.depth <= maxDepth {
      var e := EntryFor(a, at, |before|);
      LinkedAppend(before, e, maxDepth);
      SubtreeSplits(before, a, at, maxDepth);
      SiblingsLinked(before + [e], a.children, Below(a, at, |before|), maxDepth);
    } else {
      assert before + [] == before;
    }
  }

  lemma {:induction false} SiblingsLinked(before: seq<Entry>, cs: seq<Child>, at: Place, maxDepth: nat)
    requires WellLinked(before, maxDepth) && Anchored(before, at)
    ensures WellLinked(before + Siblings(cs, at, |before|, maxDepth), maxDepth)
    decreases cs, 0
  {
    if cs == [] {
      assert before + [] == before;
    } else {
      var done := Siblings(cs[..|cs| - 1], at, |before|, maxDepth);
      SiblingsLinked(before, cs[..|cs| - 1], at, maxDepth);
      var c := cs[|cs| - 1];
      assert Anchored(before + done, at);
      SlotLinked(before + done, c, at, maxDepth);
      assert (before + done) + Slot(c, at, |before + done|, maxDepth) ==
        before + (done + Slot(c, at, |before + done|, maxDepth));
    }
  }

  lemma {:induction false} SlotLinked(before: seq<Entry>, c: Child, at: Place, maxDepth: nat)
    requires WellLinked(before, maxDepth) && Anchored(before, at)
    ensures WellLinked(before + Slot(c, at, |before|, maxDepth), maxDepth)
    decreases c, 2
  {
    match c {
      case Missing => assert before + [] == before;
      case Present(a) => PreorderLinked(before, a, at, maxDepth);
    }
  }

  lemma {:induction false} ApplicationsLinked(apps: seq<Child>, info: Accessible -> AppInfo, maxDepth: nat)
    ensures WellLinked(Applications(apps, info, 0, maxDepth), maxDepth)
  {
    if apps != [] {
      var before := Applications(apps[..|apps| - 1], info, 0, maxDepth);
      ApplicationsLinked(apps[..|apps| - 1], info, maxDepth);
      var c := apps[|apps| - 1];
      if c.Present? {
        PreorderLinked(before, c.node, Root(info, c.node), maxDepth);
      }
      assert before + [] == before;
    }
  }

  lemma CapKeepsLinks(nodes: seq<Entry>, limit: nat, maxDepth: nat)
    requires WellLinked(nodes, maxDepth)
    ensures WellLinked(Cap(nodes, limit), maxDepth)
  {
    var cut := Cap(nodes, limit);
    forall i | 0 <= i < |cut|
      ensures Linked(cut, i) && cut[i].depth <= maxDepth
    {
      assert Linked(nodes, i);
    }
  }

  /** Whatever the caps, the dump is well linked. */
  lemma DumpIsLinked(surface: Surface, desktop: seq<Child>, info: Accessible -> AppInfo,
                     maxNodes: nat, maxDepth: nat, maxApps: nat)
    ensures WellLinked(Cap(FullWalk(surface, desktop, info, maxDepth, maxApps), maxNodes), maxDepth)
  {
    match surface {
      case Desktop => ApplicationsLinked(FirstApps(desktop, maxApps), info, maxDepth);
      case FrontmostApp =>
        match FocusedApplication(desktop) {
          case None =>
          case Some(app) =>
            PreorderLinked([], app, Root(info, app), maxDepth);
            assert [] + Preorder(app, Root(info, app), 0, maxDepth) == Preorder(app, Root(info, app), 0, maxDepth);
        }
    }
    CapKeepsLinks(FullWalk(surface, desktop, info, maxDepth, maxApps), maxNodes, maxDepth);
  }

  // ---- window titles ----

  /** The entries from the root down to entry `i`, found by following `parentIndex`. */
  ghost function Lineage(nodes: seq<Entry>, i: nat): seq<Entry>
    requires i < |nodes| && AllLinked(nodes)
    decreases i
  {
    assert Linked(nodes, i);
    match nodes[i].parentIndex
    case None => [nodes[i]]
    case Some(p) => Lineage(nodes, p) + [nodes[i]]
  }

  predicate NamesWindow(e: Entry) {
    (e.role == "frame" || e.role == "window" || e.role == "dialog") && e.text.Some?
  }

  /** Every entry carries the text of its outermost labelled window ancestor-or-self, if it has one. */
  lemma {:induction false} TitleIsOutermostWindow(nodes: seq<Entry>, i: nat)
    requires AllLinked(nodes) && i < |nodes|
    ensures OutermostTitle(Lineage(nodes, i), nodes[i].windowTitle)
    decreases i
  {
    assert Linked(nodes, i);
    var e := nodes[i];
    if e.parentIndex.Some? {
      var p := e.parentIndex.value;
      TitleIsOutermostWindow(nodes, p);
      var up := Lineage(nodes, p);
      ExtendLine(up, e, nodes[p].windowTitle);
    } else {
      ExtendLine([], e, None);
      assert [] + [e] == [e];
    }
  }

  /** `title` is the text of the first labelled window on the line, or absent if there is none. */
  ghost predicate OutermostTitle(line: seq<Entry>, title: Option<string>) {
    match title
    case None => forall k :: 0 <= k < |line| ==> !NamesWindow(line[k])
    case Some(t) => exists k :: 0 <= k < |line| && FirstWindow(line, k) && line[k].text == Some(t)
  }

  ghost predicate FirstWindow(line: seq<Entry>, k: nat)
    requires k < |line|
  {
    NamesWindow(line[k]) && forall j :: 0 <= j < k ==> !NamesWindow(line[j])
  }

  lemma ExtendLine(up: seq<Entry>, e: Entry, title: Option<string>)
    requires OutermostTitle(up, title)
    ensures OutermostTitle(up + [e], TitleFor(title, e.role, e.text))
  {
    var line := up + [e];
    assert line[|up|] == e && forall k :: 0 <= k < |up| ==> line[k] == up[k];
    if title.Some? {
      var k :| 0 <= k < |up| && FirstWindow(up, k) && up[k].text == title;
      assert FirstWindow(line, k);
    } else if NamesWindow(e) {
      assert FirstWindow(line, |up|);
    }
  }
}
