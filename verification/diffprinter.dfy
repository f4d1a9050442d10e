/**
 Zero-context unified diffs as git prints them, and what the fold reads back: exactly when the fold
 is the printer's inverse, and the smallest edits on which it is not.
 */
module DiffPrinter {
  import opened Sequences
  import opened Wrappers
  import opened HunkHeader
  import opened UnifiedDiff
  import opened GitQuoting
  import opened GitPaths

  /** A file's edit: stretches it keeps, and changes that remove some lines and insert others. */
  datatype Segment =
    | Same(kept: seq<string>)
    | Change(removed: seq<string>, inserted: seq<string>, heading: string, oldNoEol: bool, newNoEol: bool)

  datatype Body = NoText | Text(oldLabel: string, deleted: bool, segments: seq<Segment>)

  /** `extended` holds git's lines between the `diff --git` line and the text, such as modes and renames. */
  datatype FileEdit = FileEdit(oldPath: string, newPath: string, extended: seq<string>, body: Body)

  // ---- the meaning of an edit ----

  function NewText(segments: seq<Segment>): seq<string> {
    if segments == [] then []
    else (if segments[0].Same? then segments[0].kept else segments[0].inserted) + NewText(segments[1..])
  }

  /** For each line of the new text, whether a change inserted it. */
  function Inserted(segments: seq<Segment>): seq<bool> {
    if segments == [] then []
    else
      (if segments[0].Same? then seq(|segments[0].kept|, _ => false) else seq(|segments[0].inserted|, _ => true))
      + Inserted(segments[1..])
  }

  function NumbersFrom(first: nat, count: nat): (r: seq<nat>)
    ensures |r| == count && forall i :: 0 <= i < count ==> r[i] == first + i
  {
    seq(count, i requires 0 <= i < count => first + i)
  }

  /** The new-side numbers of the inserted lines, when `before` new lines come first. */
  function InsertedNumbers(segments: seq<Segment>, before: nat): seq<nat> {
    if segments == [] then []
    else
      match segments[0]
      case Same(kept) => InsertedNumbers(segments[1..], before + |kept|)
      case Change(_, ins, _, _, _) =>
        NumbersFrom(before + 1, |ins|) + InsertedNumbers(segments[1..], before + |ins|)
  }

  /** They ascend, and number `m` is among them exactly when line `m` of the new text was inserted. */
  lemma {:induction false} NumbersAreInsertedLines(segments: seq<Segment>, before: nat)
    ensures |Inserted(segments)| == |NewText(segments)|
    ensures AreNumbersOf(InsertedNumbers(segments, before), Inserted(segments), before)
  {
    hide AreNumbersOf, NumbersFrom;
    if segments == [] {
      NumbersOfOne(true, 0, before);
      assert seq(0, _ => true) == [] && NumbersFrom(before + 1, 0) == [];
    } else {
      var s := segments[0];
      var step := if s.Same? then |s.kept| else |s.inserted|;
      NumbersAreInsertedLines(segments[1..], before + step);
      var here := if s.Change? then NumbersFrom(before + 1, step) else [];
      NumbersOfOne(s.Change?, step, before);
      assert seq(step, _ => s.Change?) + Inserted(segments[1..]) == Inserted(segments);
      NumbersConcat(here, seq(step, _ => s.Change?), InsertedNumbers(segments[1..], before + step),
        Inserted(segments[1..]), before);
      assert s.Same? ==>
          [] + InsertedNumbers(segments[1..], before + step) == InsertedNumbers(segments[1..], before + step);
    }
  }

  /** `ns` lists, ascending, the positions after `before` whose flag is set. */
  ghost predicate AreNumbersOf(ns: seq<nat>, flags: seq<bool>, before: nat) {
    && (forall i, j :: 0 <= i < j < |ns| ==> ns[i] < ns[j])
    && (forall m :: m in ns <==> before < m <= before + |flags| && flags[m - before - 1])
  }

  lemma NumbersOfOne(changed: bool, step: nat, before: nat)
    ensures AreNumbersOf(if changed then NumbersFrom(before + 1, step) else [], seq(step, _ => changed), before)
  {
  }

  lemma NumbersConcat(ms: seq<nat>, fs: seq<bool>, ns: seq<nat>, gs: seq<bool>, before: nat)
    requires AreNumbersOf(ms, fs, before) && AreNumbersOf(ns, gs, before + |fs|)
    ensures AreNumbersOf(ms + ns, fs + gs, before)
  {
    var all, flags := ms + ns, fs + gs;
    forall m
      ensures m in all <==> before < m <= before + |flags| && flags[m - before - 1]
    {
      assert m in all <==> m in ms || m in ns;
      if before + |fs| < m <= before + |flags| {
        assert flags[m - before - 1] == gs[m - before - |fs| - 1];
      }
    }
    forall i, j | 0 <= i < j < |all|
      ensures all[i] < all[j]
    {
      if i < |ms| <= j {
        assert ms[i] in ms && ns[j - |ms|] in ns;
      }
    }
  }

  // ---- printing ----

  function Prefixed(mark: char, lines: seq<string>): (r: seq<string>)
    ensures |r| == |lines| && forall i :: 0 <= i < |r| ==> r[i] == [mark] + lines[i]
  {
    seq(|lines|, i requires 0 <= i < |lines| => [mark] + lines[i])
  }

  function Marker(missing: bool): seq<string> {
    if missing then ["\\ No newline at end of file"] else []
  }

  /** git numbers an empty side by the line before it. */
  function StartOf(before: nat, lines: seq<string>): nat {
    if lines == [] then before else before + 1
  }

  function PrintHunk(c: Segment, oldBefore: nat, newBefore: nat): seq<string>
    requires c.Change?
  {
    [Header(StartOf(oldBefore, c.removed), |c.removed|, StartOf(newBefore, c.inserted), |c.inserted|, c.heading)]
    + Prefixed('-', c.removed) + Marker(c.oldNoEol) + Prefixed('+', c.inserted) + Marker(c.newNoEol)
  }

  /** Zero context: what is kept is not printed. */
  function PrintSegments(segments: seq<Segment>, oldBefore: nat, newBefore: nat): seq<string> {
    if segments == [] then []
    else
      match segments[0]
      case Same(kept) => PrintSegments(segments[1..], oldBefore + |kept|, newBefore + |kept|)
      case Change(removed, inserted, _, _, _) =>
        PrintHunk(segments[0], oldBefore, newBefore)
        + PrintSegments(segments[1..], oldBefore + |removed|, newBefore + |inserted|)
  }

  function GitLine(e: FileEdit): string {
    GitHeader(e.oldPath, e.newPath)
  }

  function NewLabel(newPath: string, deleted: bool): string {
    "+++ " + (if deleted then "/dev/null" else TextLabel(newPath))
  }

  function PrintBody(e: FileEdit): seq<string> {
    e.extended +
    (match e.body
     case NoText => []
     case Text(oldLabel, deleted, segments) =>
       ["--- " + oldLabel, NewLabel(e.newPath, deleted)]
       + PrintSegments(segments, 0, 0))
  }

  function PrintAll(edits: seq<FileEdit>): seq<string> {
    if edits == [] then []
    else PrintAll(edits[..|edits| - 1]) + ([GitLine(edits[|edits| - 1])] + PrintBody(edits[|edits| - 1]))
  }

  function Join(lines: seq<string>): string {
    if lines == [] then "" else Join(lines[..|lines| - 1]) + (lines[|lines| - 1] + "\n")
  }

  // ---- what a faithful reading would be ----

  function SegmentsOf(e: FileEdit): seq<Segment> {
    if e.body.Text? then e.body.segments else []
  }

  function Faithful(e: FileEdit): ChangedFile {
    ChangedFile(e.newPath, InsertedNumbers(SegmentsOf(e), 0), e.body.Text? && e.body.deleted)
  }

  predicate Plain(line: string) {
    !("++" <= line)
  }

  predicate AllPlain(segments: seq<Segment>) {
    forall i :: 0 <= i < |segments| && segments[i].Change? ==>
      forall k :: 0 <= k < |segments[i].inserted| ==> Plain(segments[i].inserted[k])
  }

  /** A text that outlives the edit has its own `+++` line. */
  predicate NamedByText(e: FileEdit) {
    e.body.Text? && !e.body.deleted
  }

  /** The edits the gate reads back. */
  predicate Readable(e: FileEdit) {
    AllPlain(SegmentsOf(e)) &&
    if NamedByText(e) then PlainPath(e.newPath) else Unquoted(e.oldPath) && HeaderPath(e.newPath)
  }

  predicate OneLine(line: string) {
    '\n' !in line
  }

  /** What git guarantees of its own output; nothing is asked of the edited text but that lines are lines. */
  predicate Printable(e: FileEdit) {
    && RelativePath(e.newPath) && e.oldPath != ""
    && (forall i :: 0 <= i < |e.extended| ==>
          !("+" <= e.extended[i]) && !("@@" <= e.extended[i]) && !("diff --git " <= e.extended[i]))
  }

  // ---- the fold on printed lines ----

  lemma {:induction false} FoldAppend(sec: Section, a: seq<string>, b: seq<string>)
    ensures Fold(sec, a + b) == Fold(Fold(sec, a), b)
  {
    if b == [] {
      assert a + b == a;
    } else {
      var n := |b| - 1;
      FoldAppend(sec, a, b[..n]);
      assert (a + b)[..|a + b| - 1] == a + b[..n];
    }
  }

  lemma NotPrefix(prefix: string, line: string)
    requires prefix != [] && (line != [] ==> line[0] != prefix[0])
    ensures !(prefix <= line)
  {
  }

  /** A removed line and the missing-newline marker leave the section alone. */
  lemma SilentLine(sec: Section, line: string)
    requires line != [] && (line[0] == '-' || line[0] == '\\')
    ensures FoldLine(sec, line) == sec
  {
  }

  /** An inserted line that does not begin with `++` takes the cursor's number. */
  lemma AddedLine(sec: Section, text: string)
    requires Plain(text) && sec.cursor !in sec.added
    ensures FoldLine(sec, ['+'] + text) == sec.(added := sec.added + [sec.cursor], cursor := sec.cursor + 1)
  {
    var line := ['+'] + text;
    PlusPlus(text);
    assert "+++ " <= line ==> "+++" <= line;
    NotPrefix("@@", line);
    assert "+" <= line;
  }

  /** With its mark, an inserted line looks like a file header exactly when it begins with `++`. */
  lemma PlusPlus(text: string)
    ensures "+++" <= ['+'] + text <==> "++" <= text
  {
    var line := ['+'] + text;
    assert line[1..] == text;
    if "++" <= text {
      assert line[0] == '+' && line[1] == text[0] && line[2] == text[1];
    }
  }

  lemma {:induction false} FoldSilent(sec: Section, lines: seq<string>)
    requires forall k :: 0 <= k < |lines| ==> lines[k] != [] && (lines[k][0] == '-' || lines[k][0] == '\\')
    ensures Fold(sec, lines) == sec
  {
    if lines != [] {
      var n := |lines| - 1;
      FoldSilent(sec, lines[..n]);
      SilentLine(sec, lines[n]);
    }
  }

  /** Inserted lines that do not begin with `++` each add their own number. */
  lemma {:induction false} FoldInserted(sec: Section, lines: seq<string>)
    requires forall k :: 0 <= k < |lines| ==> Plain(lines[k])
    requires forall x :: x in sec.added ==> x < sec.cursor
    ensures Fold(sec, Prefixed('+', lines)) ==
            sec.(added := sec.added + NumbersFrom(sec.cursor, |lines|), cursor := sec.cursor + |lines|)
  {
    hide FoldLine, Plain;
    if lines == [] {
      assert sec.added + NumbersFrom(sec.cursor, 0) == sec.added;
    } else {
      var n := |lines| - 1;
      FoldInserted(sec, lines[..n]);
      var before := Fold(sec, Prefixed('+', lines[..n]));
      assert Prefixed('+', lines)[..n] == Prefixed('+', lines[..n]);
      assert before.cursor !in sec.added + NumbersFrom(sec.cursor, n);
      AddedLine(before, lines[n]);
      assert NumbersFrom(sec.cursor, |lines|) == NumbersFrom(sec.cursor, n) + [sec.cursor + n];
    }
  }

  /** One printed hunk contributes the numbers of its inserted lines. */
  lemma FoldHunk(sec: Section, c: Segment, oldBefore: nat, newBefore: nat)
    requires c.Change? && forall k :: 0 <= k < |c.inserted| ==> Plain(c.inserted[k])
    requires forall x :: x in sec.added ==> x <= newBefore
    ensures var r := Fold(sec, PrintHunk(c, oldBefore, newBefore));
      r == sec.(added := sec.added + NumbersFrom(newBefore + 1, |c.inserted|), cursor := r.cursor)
  {
    hide FoldLine, Header, Plain, Fold;
    var gone, written := Prefixed('-', c.removed) + Marker(c.oldNoEol), Prefixed('+', c.inserted);
    var start := sec.(cursor := StartOf(newBefore, c.inserted));
    var header := [
      Header(StartOf(oldBefore, c.removed), |c.removed|, StartOf(newBefore, c.inserted), |c.inserted|, c.heading)];
    HeaderLine(sec, StartOf(oldBefore, c.removed), |c.removed|, StartOf(newBefore, c.inserted), |c.inserted|,
      c.heading);
    FoldOne(sec, header[0]);
    assert PrintHunk(c, oldBefore, newBefore) == header + (gone + (written + Marker(c.newNoEol)));
    FoldAppend(sec, header, gone + (written + Marker(c.newNoEol)));
    FoldAppend(start, gone, written + Marker(c.newNoEol));
    FoldSilent(start, gone);
    FoldWritten(start, c);
  }

  lemma FoldOne(sec: Section, line: string)
    ensures Fold(sec, [line]) == FoldLine(sec, line)
  {
  }

  lemma FoldWritten(start: Section, c: Segment)
    requires c.Change? && forall k :: 0 <= k < |c.inserted| ==> Plain(c.inserted[k])
    requires c.inserted != [] ==> forall x :: x in start.added ==> x < start.cursor
    ensures var r := Fold(start, Prefixed('+', c.inserted) + Marker(c.newNoEol));
      r == start.(added := start.added + NumbersFrom(start.cursor + (if c.inserted == [] then 1 else 0), |c.inserted|),
                  cursor := r.cursor)
  {
    hide FoldLine, Plain, Fold;
    var written := Prefixed('+', c.inserted);
    FoldAppend(start, written, Marker(c.newNoEol));
    if c.inserted == [] {
      FoldNothing(start);
      FoldSilent(start, Marker(c.newNoEol));
      assert start.added + NumbersFrom(start.cursor + 1, 0) == start.added;
    } else {
      FoldInserted(start, c.inserted);
      FoldSilent(Fold(start, written), Marker(c.newNoEol));
    }
  }

  lemma HeaderStart(oldStart: nat, oldCount: nat, newStart: nat, newCount: nat, heading: string)
    ensures var line := Header(oldStart, oldCount, newStart, newCount, heading);
      line != [] && line[0] == '@' && "@@" <= line
  {
  }

  lemma HeaderLine(sec: Section, oldStart: nat, oldCount: nat, newStart: nat, newCount: nat, heading: string)
    ensures FoldLine(sec, Header(oldStart, oldCount, newStart, newCount, heading)) == sec.(cursor := newStart)
  {
    hide NewStartOfHunk, Header;
    var line := Header(oldStart, oldCount, newStart, newCount, heading);
    HeaderRoundTrip(oldStart, oldCount, newStart, newCount, heading);
    HeaderStart(oldStart, oldCount, newStart, newCount, heading);
    NotPrefix("+++ ", line);
  }

  lemma FoldNothing(sec: Section)
    ensures Fold(sec, []) == sec
  {
  }

  /** A printed text contributes exactly the numbers of its inserted lines, in order. */
  lemma {:induction false} FoldSegments(sec: Section, segments: seq<Segment>, oldBefore: nat, newBefore: nat)
    requires AllPlain(segments) && forall x :: x in sec.added ==> x <= newBefore
    ensures var r := Fold(sec, PrintSegments(segments, oldBefore, newBefore));
      r == sec.(added := sec.added + InsertedNumbers(segments, newBefore), cursor := r.cursor)
    decreases segments
  {
    hide Plain, PrintHunk, Fold;
    if segments == [] {
      FoldNothing(sec);
      assert sec.added + InsertedNumbers(segments, newBefore) == sec.added;
      return;
    }
    var rest := segments[1..];
    assert forall i :: 0 <= i < |rest| ==> rest[i] == segments[i + 1];
    match segments[0] {
      case Same(kept) => FoldSegments(sec, rest, oldBefore + |kept|, newBefore + |kept|);
      case Change(removed, inserted, _, _, _) =>
        FoldHunk(sec, segments[0], oldBefore, newBefore);
        var mid := Fold(sec, PrintHunk(segments[0], oldBefore, newBefore));
        FoldAppend(sec, PrintHunk(segments[0], oldBefore, newBefore),
                   PrintSegments(rest, oldBefore + |removed|, newBefore + |inserted|));
        FoldSegments(mid, rest, oldBefore + |removed|, newBefore + |inserted|);
        var here, later := NumbersFrom(newBefore + 1, |inserted|), InsertedNumbers(rest, newBefore + |inserted|);
        assert sec.added + (here + later) == (sec.added + here) + later;
    }
  }

  // ---- when an inserted line begins with `++` ----

  function Additions(lines: seq<string>): nat {
    if lines == [] then 0
    else Additions(lines[..|lines| - 1]) + (if IsAddition(lines[|lines| - 1]) then 1 else 0)
  }

  /** Whatever the lines, a section learns at most one number per addition. */
  lemma {:induction false} AtMostAdditions(sec: Section, lines: seq<string>)
    ensures |Fold(sec, lines).added| <= |sec.added| + Additions(lines)
  {
    if lines != [] {
      AtMostAdditions(sec, lines[..|lines| - 1]);
    }
  }

  lemma {:induction false} AdditionsAppend(a: seq<string>, b: seq<string>)
    ensures Additions(a + b) == Additions(a) + Additions(b)
  {
    if b == [] {
      assert a + b == a;
    } else {
      AdditionsAppend(a, b[..|b| - 1]);
      assert (a + b)[..|a + b| - 1] == a + b[..|b| - 1];
    }
  }

  lemma {:induction false} NoAdditions(lines: seq<string>)
    requires forall k :: 0 <= k < |lines| ==> lines[k] == [] || lines[k][0] != '+'
    ensures Additions(lines) == 0
  {
    if lines != [] {
      NotPrefix("+", lines[|lines| - 1]);
      NoAdditions(lines[..|lines| - 1]);
    }
  }

  function PlainCount(lines: seq<string>): nat {
    if lines == [] then 0
    else PlainCount(lines[..|lines| - 1]) + (if Plain(lines[|lines| - 1]) then 1 else 0)
  }

  lemma {:induction false} PlainCountIsFull(lines: seq<string>)
    ensures PlainCount(lines) <= |lines|
    ensures PlainCount(lines) == |lines| <==> forall k :: 0 <= k < |lines| ==> Plain(lines[k])
  {
    if lines != [] {
      PlainCountIsFull(lines[..|lines| - 1]);
    }
  }

  lemma {:induction false} AdditionsOfInserted(lines: seq<string>)
    ensures Additions(Prefixed('+', lines)) == PlainCount(lines)
  {
    if lines != [] {
      var n := |lines| - 1;
      AdditionsOfInserted(lines[..n]);
      assert Prefixed('+', lines)[..n] == Prefixed('+', lines[..n]);
      PlusPlus(lines[n]);
      assert "+" <= ['+'] + lines[n];
    }
  }

  lemma AdditionsOfHunk(c: Segment, oldBefore: nat, newBefore: nat)
    requires c.Change?
    ensures Additions(PrintHunk(c, oldBefore, newBefore)) == PlainCount(c.inserted)
  {
    hide Plain, Additions, Header;
    var header :=
      Header(StartOf(oldBefore, c.removed), |c.removed|, StartOf(newBefore, c.inserted), |c.inserted|, c.heading);
    var head := [header] + Prefixed('-', c.removed) + Marker(c.oldNoEol);
    var written := Prefixed('+', c.inserted);
    assert PrintHunk(c, oldBefore, newBefore) == head + (written + Marker(c.newNoEol));
    HeaderStart(StartOf(oldBefore, c.removed), |c.removed|, StartOf(newBefore, c.inserted), |c.inserted|, c.heading);
    AdditionsAppend(head, written + Marker(c.newNoEol));
    AdditionsAppend(written, Marker(c.newNoEol));
    AdditionsOfInserted(c.inserted);
    NoAdditions(head);
    NoAdditions(Marker(c.newNoEol));
  }

  /** A text with an inserted `++` line offers fewer additions than it has inserted lines. */
  lemma {:induction false} AdditionsOfSegments(segments: seq<Segment>, oldBefore: nat, newBefore: nat)
    ensures var n := Additions(PrintSegments(segments, oldBefore, newBefore));
      && n <= |InsertedNumbers(segments, newBefore)|
      && (n == |InsertedNumbers(segments, newBefore)| ==> AllPlain(segments))
    decreases segments
  {
    hide Plain, PrintHunk, Additions;
    if segments == [] {
      NoAdditions([]);
      return;
    }
    var rest := segments[1..];
    assert segments == [segments[0]] + rest;
    match segments[0] {
      case Same(kept) => AdditionsOfSegments(rest, oldBefore + |kept|, newBefore + |kept|);
      case Change(removed, inserted, _, _, _) =>
        AdditionsOfSegments(rest, oldBefore + |removed|, newBefore + |inserted|);
        AdditionsOfHunk(segments[0], oldBefore, newBefore);
        AdditionsAppend(PrintHunk(segments[0], oldBefore, newBefore),
                        PrintSegments(rest, oldBefore + |removed|, newBefore + |inserted|));
        PlainCountIsFull(inserted);
    }
  }

  // ---- whole diffs ----

  /** Lines that look like neither an addition nor a header only move the cursor. */
  lemma {:induction false} FoldOthers(sec: Section, lines: seq<string>)
    requires forall k :: 0 <= k < |lines| ==> !("+" <= lines[k]) && !("@@" <= lines[k])
    ensures Fold(sec, lines) == sec.(cursor := Fold(sec, lines).cursor)
  {
    if lines != [] {
      var line := lines[|lines| - 1];
      FoldOthers(sec, lines[..|lines| - 1]);
      assert "+++ " <= line ==> "+" <= line;
    }
  }

  lemma NewFileLine(sec: Section, newPath: string, deleted: bool)
    requires newPath != ""
    ensures FoldLine(sec, NewLabel(newPath, deleted)) ==
            if deleted then sec.(deleted := true) else sec.(path := LabelPath(newPath))
  {
    hide Trim, NormalizePath, TextLabel, Label;
    var line := NewLabel(newPath, deleted);
    assert "+++ " <= line && line[4..] == if deleted then "/dev/null" else TextLabel(newPath);
    TextLabelTrimmed(newPath);
    if deleted {
      TrimKept("/dev/null");
    }
  }

  function SectionOf(e: FileEdit): Section {
    Fold(Section(PathFromDiffHeader(GitLine(e)), [], false, 0), PrintBody(e))
  }

  /** Without `++` lines a file's section holds its inserted numbers, its fate, and the last path it was given. */
  lemma PlainSection(e: FileEdit)
    requires Printable(e) && AllPlain(SegmentsOf(e))
    ensures var path := if NamedByText(e) then LabelPath(e.newPath) else PathFromDiffHeader(GitLine(e));
      SectionOf(e) ==
        Section(path, InsertedNumbers(SegmentsOf(e), 0), e.body.Text? && e.body.deleted, SectionOf(e).cursor)
  {
    hide Fold, FoldLine, PathFromDiffHeader, AllPlain, LabelPath, GitHeader;
    var start := Section(PathFromDiffHeader(GitLine(e)), [], false, 0);
    var s1 := Fold(start, e.extended);
    FoldOthers(start, e.extended);
    match e.body {
      case NoText => assert e.extended + [] == e.extended;
      case Text(oldLabel, deleted, segments) =>
        var head := ["--- " + oldLabel, NewLabel(e.newPath, deleted)];
        FoldTextHead(s1, e.newPath, oldLabel, deleted);
        var s2 := Fold(s1, head);
        assert PrintBody(e) == e.extended + (head + PrintSegments(segments, 0, 0));
        FoldAppend(start, e.extended, head + PrintSegments(segments, 0, 0));
        FoldAppend(s1, head, PrintSegments(segments, 0, 0));
        FoldSegments(s2, segments, 0, 0);
        assert [] + InsertedNumbers(segments, 0) == InsertedNumbers(segments, 0);
    }
  }

  lemma FoldTextHead(sec: Section, newPath: string, oldLabel: string, deleted: bool)
    requires newPath != ""
    ensures Fold(sec, ["--- " + oldLabel, NewLabel(newPath, deleted)]) ==
            if deleted then sec.(deleted := true) else sec.(path := LabelPath(newPath))
  {
    hide FoldLine, NewLabel, LabelPath;
    var minus, line := "--- " + oldLabel, NewLabel(newPath, deleted);
    assert [minus, line][..1] == [minus];
    FoldOne(sec, minus);
    SilentLine(sec, minus);
    NewFileLine(sec, newPath, deleted);
  }

  /** With a `++` line the section knows too few numbers, whatever else it got wrong. */
  lemma UnfaithfulSection(e: FileEdit)
    requires Printable(e) && !AllPlain(SegmentsOf(e))
    ensures |SectionOf(e).added| < |InsertedNumbers(SegmentsOf(e), 0)|
  {
    hide Fold, FoldLine, AllPlain, Additions, IsAddition;
    NoTextIsPlain(e);
    var segments := SegmentsOf(e);
    var head := ["--- " + e.body.oldLabel, NewLabel(e.newPath, e.body.deleted)];
    AtMostAdditions(Section(PathFromDiffHeader(GitLine(e)), [], false, 0), PrintBody(e));
    assert PrintBody(e) == e.extended + (head + PrintSegments(segments, 0, 0));
    AdditionsAppend(e.extended, head + PrintSegments(segments, 0, 0));
    AdditionsAppend(head, PrintSegments(segments, 0, 0));
    AdditionsOfHead(head);
    AdditionsOfExtended(e.extended);
    AdditionsOfSegments(segments, 0, 0);
  }

  lemma NoTextIsPlain(e: FileEdit)
    ensures e.body.NoText? ==> AllPlain(SegmentsOf(e))
  {
  }

  lemma AdditionsOfHead(head: seq<string>)
    requires |head| == 2 && "--- " <= head[0] && "+++ " <= head[1]
    ensures Additions(head) == 0
  {
    var minus := head[..|head| - 1];
    assert minus == [head[0]] && head[0][0] == '-';
    NoAdditions(minus);
    assert "+++" <= head[1] by {
      assert head[1][..3] == "+++ "[..3] == "+++";
    }
  }

  lemma {:induction false} AdditionsOfExtended(lines: seq<string>)
    requires forall k :: 0 <= k < |lines| ==> !("+" <= lines[k])
    ensures Additions(lines) == 0
  {
    if lines != [] {
      AdditionsOfExtended(lines[..|lines| - 1]);
    }
  }

  // ---- the state machine over whole diffs ----

  lemma {:induction false} RunAppend(st: State, a: seq<string>, b: seq<string>)
    ensures Run(st, a + b) == Run(Run(st, a), b)
  {
    if b == [] {
      assert a + b == a;
    } else {
      RunAppend(st, a, b[..|b| - 1]);
      assert (a + b)[..|a + b| - 1] == a + b[..|b| - 1];
    }
  }

  lemma {:induction false} RunBody(st: State, lines: seq<string>)
    requires st.section.Some? && AllInner(lines)
    ensures Run(st, lines) == st.(section := Some(Fold(st.section.value, lines)))
  {
    if lines != [] {
      RunBody(st, lines[..|lines| - 1]);
    }
  }

  predicate Inner(line: string) {
    !("diff --git " <= line)
  }

  predicate AllInner(lines: seq<string>) {
    forall k :: 0 <= k < |lines| ==> Inner(lines[k])
  }

  lemma InnerAppend(a: seq<string>, b: seq<string>)
    requires AllInner(a) && AllInner(b)
    ensures AllInner(a + b)
  {
  }

  lemma InnerByFirst(lines: seq<string>)
    requires forall k :: 0 <= k < |lines| ==> lines[k] != [] && lines[k][0] != 'd'
    ensures AllInner(lines)
  {
  }

  /** No printed body line opens a new file section. */
  lemma BodyStaysInside(e: FileEdit)
    requires Printable(e)
    ensures AllInner(PrintBody(e))
  {
    match e.body {
      case NoText => assert e.extended + [] == e.extended;
      case Text(oldLabel, deleted, segments) =>
        var head := ["--- " + oldLabel, NewLabel(e.newPath, deleted)];
        InnerByFirst(head);
        SegmentsStayInside(segments, 0, 0);
        InnerAppend(head, PrintSegments(segments, 0, 0));
        InnerAppend(e.extended, head + PrintSegments(segments, 0, 0));
    }
  }

  lemma {:induction false} SegmentsStayInside(segments: seq<Segment>, oldBefore: nat, newBefore: nat)
    ensures AllInner(PrintSegments(segments, oldBefore, newBefore))
    decreases segments
  {
    hide PrintHunk, Inner;
    if segments != [] {
      match segments[0] {
        case Same(kept) => SegmentsStayInside(segments[1..], oldBefore + |kept|, newBefore + |kept|);
        case Change(removed, inserted, _, _, _) =>
          SegmentsStayInside(segments[1..], oldBefore + |removed|, newBefore + |inserted|);
          HunkStaysInside(segments[0], oldBefore, newBefore);
          InnerAppend(PrintHunk(segments[0], oldBefore, newBefore),
                      PrintSegments(segments[1..], oldBefore + |removed|, newBefore + |inserted|));
      }
    }
  }

  lemma HunkStaysInside(c: Segment, oldBefore: nat, newBefore: nat)
    requires c.Change?
    ensures AllInner(PrintHunk(c, oldBefore, newBefore))
  {
    hide Header, Inner;
    HeaderStart(StartOf(oldBefore, c.removed), |c.removed|, StartOf(newBefore, c.inserted), |c.inserted|, c.heading);
    InnerByFirst(PrintHunk(c, oldBefore, newBefore));
  }

  function Reports(edits: seq<FileEdit>): seq<ChangedFile> {
    if edits == [] then [] else Reports(edits[..|edits| - 1]) + Report(SectionOf(edits[|edits| - 1]))
  }

  lemma RunFile(st: State, e: FileEdit)
    requires Printable(e)
    ensures Run(st, [GitLine(e)] + PrintBody(e)) == State(Flush(st), Some(SectionOf(e)))
  {
    hide Fold, PrintBody, PathFromDiffHeader, GitHeader, Printable;
    HeaderStarts(e.oldPath, e.newPath);
    BodyStaysInside(e);
    assert [GitLine(e)][..0] == [];
    RunAppend(st, [GitLine(e)], PrintBody(e));
    RunBody(State(Flush(st), Some(Section(PathFromDiffHeader(GitLine(e)), [], false, 0))), PrintBody(e));
  }

  lemma {:induction false} RunAll(edits: seq<FileEdit>)
    requires forall i :: 0 <= i < |edits| ==> Printable(edits[i])
    ensures var st := Run(State([], None), PrintAll(edits));
      Flush(st) == Reports(edits) && (edits != [] ==> st.section == Some(SectionOf(edits[|edits| - 1])))
      && (edits == [] ==> st.section == None)
  {
    hide SectionOf, PrintBody, GitLine, Printable;
    if edits != [] {
      var n := |edits| - 1;
      RunAll(edits[..n]);
      RunAppend(State([], None), PrintAll(edits[..n]), [GitLine(edits[n])] + PrintBody(edits[n]));
      RunFile(Run(State([], None), PrintAll(edits[..n])), edits[n]);
    }
  }

  /** The empty piece after the last newline changes nothing that is reported. */
  lemma TrailingPiece(st: State)
    ensures Flush(Step(st, "")) == Flush(st)
  {
  }

  lemma {:induction false} SplitOfJoin(lines: seq<string>)
    requires forall k :: 0 <= k < |lines| ==> OneLine(lines[k])
    ensures Split(Join(lines)) == lines + [""]
  {
    hide Split, OneLine;
    if lines == [] {
      SplitNothing();
      assert lines + [""] == [""];
    } else {
      var n := |lines| - 1;
      SplitOfJoin(lines[..n]);
      SplitExtends(Join(lines[..n]), lines[n]);
      LastPiece(lines[..n], lines[n]);
      SplitNewline(Join(lines[..n]) + lines[n]);
      JoinLast(lines);
      assert lines == lines[..n] + [lines[n]];
    }
  }

  lemma SplitNothing()
    ensures Split("") == [""]
  {
  }

  lemma JoinLast(lines: seq<string>)
    requires lines != []
    ensures Join(lines) == (Join(lines[..|lines| - 1]) + lines[|lines| - 1]) + "\n"
  {
  }

  lemma LastPiece(before: seq<string>, line: string)
    ensures var s := before + [""]; s[..|s| - 1] + [s[|s| - 1] + line] == before + [line]
  {
    assert "" + line == line;
  }

  lemma SplitNewline(text: string)
    ensures Split(text + "\n") == Split(text) + [""]
  {
  }

  lemma {:induction false} SplitExtends(text: string, line: string)
    requires OneLine(line)
    ensures var before := Split(text);
      Split(text + line) == before[..|before| - 1] + [before[|before| - 1] + line]
  {
    hide Split;
    var before := Split(text);
    var last := before[|before| - 1];
    if line == [] {
      assert text + line == text && last + line == last;
    } else {
      var n := |line| - 1;
      SplitExtends(text, line[..n]);
      assert text + line == (text + line[..n]) + [line[n]];
      SplitChar(text + line[..n], line[n]);
      assert (last + line[..n]) + [line[n]] == last + line;
    }
  }

  lemma SplitChar(text: string, c: char)
    requires c != '\n'
    ensures var before := Split(text);
      Split(text + [c]) == before[..|before| - 1] + [before[|before| - 1] + [c]]
  {
    assert (text + [c])[..|text|] == text;
  }

  /** A file is reported faithfully exactly when it is readable. */
  lemma ReportOfFile(e: FileEdit)
    requires Printable(e)
    ensures |Report(SectionOf(e))| <= 1
    ensures Report(SectionOf(e)) == [Faithful(e)] <==> Readable(e)
  {
    hide SectionOf, PathFromDiffHeader, AllPlain, HeaderPath, PlainPath, Unquoted, LabelPath, GitHeader;
    if AllPlain(SegmentsOf(e)) {
      PlainSection(e);
      HeaderNamesFile(e.oldPath, e.newPath);
      LabelNamesFile(e.newPath);
      var ns := InsertedNumbers(SegmentsOf(e), 0);
      NumbersAreInsertedLines(SegmentsOf(e), 0);
      assert Sorted(ns, Ascending());
      SortedIsUnique(Sort(ns, Ascending()), ns, Ascending());
    } else {
      UnfaithfulSection(e);
      SamePermutation(SectionOf(e).added, Sort(SectionOf(e).added, Ascending()));
    }
  }

  function AllFaithful(edits: seq<FileEdit>): (r: seq<ChangedFile>)
    ensures |r| == |edits|
  {
    seq(|edits|, i requires 0 <= i < |edits| => Faithful(edits[i]))
  }

  /** Reports that are faithful all together are faithful one by one. */
  lemma {:induction false} FaithfulIffReadable(edits: seq<FileEdit>)
    requires forall i :: 0 <= i < |edits| ==> Printable(edits[i])
    ensures |Reports(edits)| <= |edits|
    ensures Reports(edits) == AllFaithful(edits) <==> forall i :: 0 <= i < |edits| ==> Readable(edits[i])
  {
    hide SectionOf, Readable, Faithful, Report, Printable;
    if edits != [] {
      var n := |edits| - 1;
      FaithfulIffReadable(edits[..n]);
      ReportOfFile(edits[n]);
      var head, last := Reports(edits[..n]), Report(SectionOf(edits[n]));
      assert AllFaithful(edits) == AllFaithful(edits[..n]) + [Faithful(edits[n])];
      if head + last == AllFaithful(edits) {
        assert |last| == 1 && |head| == n;
        assert head == (head + last)[..n] && last[0] == (head + last)[n];
        assert AllFaithful(edits)[..n] == AllFaithful(edits[..n]);
        assert last == [Faithful(edits[n])];
      }
    }
  }

  /**
   The gate reads back, from the text git prints for a multi-file edit, every file's path, fate and
   inserted line numbers, if and only if no inserted line begins with `++`, every path on a `+++` line
   is one git need not quote and does not end in a blank, and every file without a `+++` line of its
   own (moved, chmod-ed, binary or deleted) has a path the `diff --git` line spells out.
   */
  lemma DiffRoundTrip(edits: seq<FileEdit>)
    requires forall i :: 0 <= i < |edits| ==> Printable(edits[i])
    requires forall k :: 0 <= k < |PrintAll(edits)| ==> OneLine(PrintAll(edits)[k])
    ensures Parse(Split(Join(PrintAll(edits)))) == AllFaithful(edits) <==>
            forall i :: 0 <= i < |edits| ==> Readable(edits[i])
  {
    hide Run, Step, Printable, Readable;
    var lines := PrintAll(edits);
    SplitOfJoin(lines);
    RunAll(edits);
    RunTrailing(lines);
    FaithfulIffReadable(edits);
  }

  /** One line inserted into an empty file. */
  function OneInsertion(path: string, line: string): FileEdit {
    FileEdit(path, path, [], Text("/dev/null", false, [Change([], [line], "", false, false)]))
  }

  /** Inserting the one line `++i` into an empty file is enough to lose it: the file comes back without numbers. */
  lemma PlusPlusLineIsLost()
    ensures var e := OneInsertion("f", "++i"); Printable(e) && Parse(Split(Join(PrintAll([e])))) != AllFaithful([e])
  {
    hide Parse, Split, Join;
    var e := OneInsertion("f", "++i");
    RelativeByFirst("f");
    PrintOne("f", "++i");
    assert SegmentsOf(e)[0].inserted[0] == "++i";
    assert !Readable([e][0]);
    DiffRoundTrip([e]);
  }

  /**
   Any insertion into a file with an accent in its name is lost: git quotes the name and the gate does not
   unquote it.
   */
  lemma QuotedPathIsLost(line: string)
    requires OneLine(line)
    ensures var e := OneInsertion("src/\U{00E9}.ts", line);
      Printable(e) && Parse(Split(Join(PrintAll([e])))) != AllFaithful([e])
  {
    hide Parse, Split, Join, AllPlain;
    var e := OneInsertion("src/\U{00E9}.ts", line);
    RelativeByFirst("src/\U{00E9}.ts");
    PrintOne("src/\U{00E9}.ts", line);
    assert e.newPath[4] == '\U{00E9}' && !Graphic(e.newPath[4]);
    assert !Readable([e][0]);
    DiffRoundTrip([e]);
  }

  /** So does chmod-ing a file in a top-level folder named `b`: its path loses the folder. */
  lemma FolderNamedBIsLost()
    ensures var e := FileEdit("b/f", "b/f", ["old mode 100644", "new mode 100755"], NoText);
      Printable(e) && Parse(Split(Join(PrintAll([e])))) != AllFaithful([e])
  {
    hide Parse, Split, Join, GitHeader, Unquoted, NoInnerMark;
    var e := FileEdit("b/f", "b/f", ["old mode 100644", "new mode 100755"], NoText);
    ModeLines();
    RelativeByFirst("b/f");
    assert PrintAll([e]) == [GitLine(e)] + e.extended;
    HeaderIsOneLine("b/f");
    assert "b/" <= e.newPath && !Readable([e][0]);
    DiffRoundTrip([e]);
  }

  lemma ModeLines()
    ensures OneLine("old mode 100644") && OneLine("new mode 100755")
    ensures forall c :: c != 'o' ==> !([c] <= "old mode 100644")
    ensures forall c :: c != 'n' ==> !([c] <= "new mode 100755")
  {
    assert "old mode 100644"[0] == 'o' && "new mode 100755"[0] == 'n';
  }

  lemma HunkHeaderIsOneLine(oldStart: nat, oldCount: nat, newStart: nat, newCount: nat, heading: string)
    requires OneLine(heading)
    ensures OneLine(Header(oldStart, oldCount, newStart, newCount, heading))
  {
    hide Decimal, Range, OneLine;
    RangeIsOneLine(oldStart, oldCount);
    RangeIsOneLine(newStart, newCount);
    Punctuation();
    JoinOneLine(" @@", heading);
    JoinOneLine(Range(newStart, newCount), " @@" + heading);
    JoinOneLine(" +", Range(newStart, newCount) + (" @@" + heading));
    JoinOneLine(Range(oldStart, oldCount), " +" + (Range(newStart, newCount) + (" @@" + heading)));
    JoinOneLine("@@ -", Range(oldStart, oldCount) + (" +" + (Range(newStart, newCount) + (" @@" + heading))));
  }

  lemma Punctuation()
    ensures OneLine(" @@") && OneLine(" +") && OneLine("@@ -")
  {
  }

  lemma RangeIsOneLine(start: nat, count: nat)
    ensures OneLine(Range(start, count))
  {
    hide Decimal;
  }

  lemma JoinOneLine(a: string, b: string)
    requires OneLine(a) && OneLine(b)
    ensures OneLine(a + b)
  {
  }

  lemma GraphicIsOneLine(s: string)
    requires AllGraphic(s)
    ensures OneLine(s) && OneLine(s + "\t")
  {
  }

  lemma HeaderIsOneLine(path: string)
    ensures OneLine(GitHeader(path, path)) && OneLine(NewLabel(path, false))
  {
    hide GitHeader, Label, AllGraphic;
    HeaderIsGraphic(path, path);
    GraphicIsOneLine(GitHeader(path, path));
    LabelIsGraphic(path);
    GraphicIsOneLine(Label("b/", path));
    assert Label("b/", path) + "" == Label("b/", path);
  }

  lemma LabelIsGraphic(path: string)
    ensures AllGraphic(Label("b/", path))
  {
  }

  lemma PrintOne(path: string, line: string)
    requires RelativePath(path) && OneLine(line)
    ensures var e := OneInsertion(path, line);
      Printable(e) && forall k :: 0 <= k < |PrintAll([e])| ==> OneLine(PrintAll([e])[k])
  {
    hide Header, GitHeader, NewLabel, RelativePath;
    var e := OneInsertion(path, line);
    var change := e.body.segments[0];
    var header := Header(0, 0, 1, 1, "");
    HunkHeaderIsOneLine(0, 0, 1, 1, "");
    HeaderIsOneLine(path);
    OldPathNeeded(path);
    assert PrintHunk(change, 0, 0) == [header, "+" + line];
    assert PrintSegments([change], 0, 0) == [header, "+" + line] + PrintSegments([], 0, 1);
    assert PrintBody(e) == ["--- " + "/dev/null", NewLabel(path, false), header, "+" + line];
    assert PrintAll([e]) == [GitLine(e)] + PrintBody(e);
  }

  lemma OldPathNeeded(path: string)
    requires RelativePath(path)
    ensures path != ""
  {
  }

  lemma RunTrailing(lines: seq<string>)
    ensures Parse(lines + [""]) == Flush(Run(State([], None), lines))
  {
    assert (lines + [""])[..|lines|] == lines;
    TrailingPiece(Run(State([], None), lines));
  }
}
