/** The unified-diff fold of scripts/coverage-changed/model.ts. */
module UnifiedDiff {
  import opened Sequences
  import opened Wrappers
  import opened HunkHeader

  /** What `trim` removes. */
  predicate IsSpace(c: char) {
    || c in {' ', '\t', '\n', '\r', '\U{000B}', '\U{000C}', '\U{00A0}', '\U{1680}',
             '\U{2028}', '\U{2029}', '\U{202F}', '\U{205F}', '\U{3000}', '\U{FEFF}'}
    || '\U{2000}' <= c <= '\U{200A}'
  }

  /** What `.` in a pattern does not match. */
  predicate HasLineBreak(s: string) {
    exists i :: 0 <= i < |s| && s[i] in {'\n', '\r', '\U{2028}', '\U{2029}'}
  }

  function TrimStart(s: string): string {
    if s != [] && IsSpace(s[0]) then TrimStart(s[1..]) else s
  }

  function TrimEnd(s: string): string {
    if s != [] && IsSpace(s[|s| - 1]) then TrimEnd(s[..|s| - 1]) else s
  }

  function Trim(s: string): string {
    TrimEnd(TrimStart(s))
  }

  function ForwardSlashes(s: string): (r: string)
    ensures |r| == |s| && forall i :: 0 <= i < |s| ==> r[i] == if s[i] == '\\' then '/' else s[i]
  {
    seq(|s|, i requires 0 <= i < |s| => if s[i] == '\\' then '/' else s[i])
  }

  function Strip(s: string, prefix: string): string {
    if prefix <= s then s[|prefix|..] else s
  }

  /** `normalizePath` without a root directory. */
  function NormalizePath(raw: string): string {
    Strip(Strip(ForwardSlashes(Trim(raw)), "b/"), "./")
  }

  /** The greedy `.+ b\/` leaves the last ` b/` that has text on both sides. */
  function LastMark(line: string, k: nat): (r: Option<nat>)
    requires k <= |line|
    ensures r.Some? ==> 14 <= r.value <= k && LiteralAt(line, r.value, " b/") && r.value + 3 < |line|
  {
    if k < 14 then None
    else if LiteralAt(line, k, " b/") && k + 3 < |line| then Some(k)
    else LastMark(line, k - 1)
  }

  function PathFromDiffHeader(line: string): string {
    if !("diff --git a/" <= line) || HasLineBreak(line) then ""
    else
      match LastMark(line, |line|)
      case None => ""
      case Some(k) => NormalizePath(line[k + 3..])
  }

  datatype ChangedFile = ChangedFile(path: string, added: seq<nat>, deleted: bool)

  datatype Section = Section(path: string, added: seq<nat>, deleted: bool, cursor: nat)

  /** `Set.add`, in insertion order. */
  function AddNumber(s: seq<nat>, n: nat): seq<nat> {
    if n in s then s else s + [n]
  }

  predicate IsAddition(line: string) {
    "+" <= line && !("+++" <= line)
  }

  function FoldLine(sec: Section, line: string): Section {
    if "+++ " <= line then
      var target := Trim(line[4..]);
      if target == "/dev/null" then sec.(deleted := true) else sec.(path := NormalizePath(target))
    else if "@@" <= line then
      match NewStartOfHunk(line)
      case None => sec
      case Some(start) => sec.(cursor := start)
    else if IsAddition(line) then sec.(added := AddNumber(sec.added, sec.cursor), cursor := sec.cursor + 1)
    else if "-" <= line || "\\" <= line then sec
    else sec.(cursor := sec.cursor + 1)
  }

  function Fold(sec: Section, lines: seq<string>): Section {
    if lines == [] then sec else FoldLine(Fold(sec, lines[..|lines| - 1]), lines[|lines| - 1])
  }

  /** `flush`: a section without a path is dropped. */
  function Report(sec: Section): seq<ChangedFile> {
    if sec.path == "" then [] else [ChangedFile(sec.path, Sort(sec.added, Ascending()), sec.deleted)]
  }

  function Ascending(): (le: (nat, nat) -> bool)
    ensures TotalOrder(le) && forall a, b :: le(a, b) <==> a <= b
  {
    var le := (a: nat, b: nat) => a <= b;
    assert forall a, b :: le(a, b) <==> a <= b;
    le
  }

  datatype State = State(files: seq<ChangedFile>, section: Option<Section>)

  function Flush(st: State): seq<ChangedFile> {
    st.files + (if st.section.Some? then Report(st.section.value) else [])
  }

  function Step(st: State, line: string): State {
    if "diff --git " <= line then State(Flush(st), Some(Section(PathFromDiffHeader(line), [], false, 0)))
    else if st.section.Some? then st.(section := Some(FoldLine(st.section.value, line)))
    else st
  }

  function Run(st: State, lines: seq<string>): State {
    if lines == [] then st else Step(Run(st, lines[..|lines| - 1]), lines[|lines| - 1])
  }

  function Parse(lines: seq<string>): seq<ChangedFile> {
    Flush(Run(State([], None), lines))
  }

  // ---- what any report looks like ----

  /** The report names a file and lists its lines in ascending order, each once. */
  ghost predicate WellReported(f: ChangedFile) {
    f.path != "" && forall i, j :: 0 <= i < j < |f.added| ==> f.added[i] < f.added[j]
  }

  lemma {:induction false} AddedOnce(sec: Section, line: string)
    requires Distinct(sec.added)
    ensures Distinct(FoldLine(sec, line).added)
  {
    hide NewStartOfHunk, NormalizePath, Trim;
    if sec.cursor !in sec.added {
      AppendDistinct(sec.added, sec.cursor);
    }
  }

  lemma ReportIsWell(sec: Section)
    requires Distinct(sec.added)
    ensures forall f :: f in Report(sec) ==> WellReported(f)
  {
    hide Sort;
    var sorted := Sort(sec.added, Ascending());
    PermutationKeepsDistinct(sec.added, sorted);
    forall i, j | 0 <= i < j < |sorted|
      ensures sorted[i] < sorted[j]
    {
      assert Ascending()(sorted[i], sorted[j]);
    }
  }

  lemma {:induction false} RunIsWell(lines: seq<string>)
    ensures var st := Run(State([], None), lines);
      && (forall f :: f in st.files ==> WellReported(f))
      && (st.section.Some? ==> Distinct(st.section.value.added))
  {
    hide FoldLine, Report, WellReported, PathFromDiffHeader;
    if lines != [] {
      var n := |lines| - 1;
      RunIsWell(lines[..n]);
      var st := Run(State([], None), lines[..n]);
      if st.section.Some? {
        AddedOnce(st.section.value, lines[n]);
        ReportIsWell(st.section.value);
      }
    }
  }

  lemma ParseIsWell(lines: seq<string>)
    ensures forall f :: f in Parse(lines) ==> WellReported(f)
  {
    hide Run, Report, WellReported;
    RunIsWell(lines);
    var st := Run(State([], None), lines);
    if st.section.Some? {
      ReportIsWell(st.section.value);
    }
  }

  /** `diff.split('\n')` */
  function Split(text: string): (lines: seq<string>)
    ensures |lines| > 0
  {
    if text == [] then [""]
    else
      var before := Split(text[..|text| - 1]);
      var c := text[|text| - 1];
      if c == '\n' then before + [""] else before[..|before| - 1] + [before[|before| - 1] + [c]]
  }

  /** The section object the loop mutates. */
  class DiffSection {
    var path: string
    var added: seq<nat>
    var deleted: bool
    var cursor: nat

    function Value(): Section
      reads this
    {
      Section(path, added, deleted, cursor)
    }

    constructor (path: string)
      ensures Value() == Section(path, [], false, 0)
    {
      this.path, added, deleted, cursor := path, [], false, 0;
    }

    /** `foldDiffBodyLine` */
    method FoldDiffBodyLine(line: string)
      modifies this
      ensures Value() == FoldLine(old(Value()), line)
    {
      if "+++ " <= line {
        var target := Trim(line[4..]);
        if target == "/dev/null" {
          deleted := true;
        } else {
          path := NormalizePath(target);
        }
      } else if "@@" <= line {
        var start := NewStartOfHunk(line);
        if start.Some? {
          cursor := start.value;
        }
      } else if IsAddition(line) {
        added := AddNumber(added, cursor);
        cursor := cursor + 1;
      } else if "-" <= line || "\\" <= line {
        // A removed line or the missing-newline marker has no number on the new side.
      } else {
        cursor := cursor + 1;
      }
    }
  }

  /** `parseUnifiedDiff` */
  method ParseUnifiedDiff(diff: string) returns (files: seq<ChangedFile>)
    ensures files == Parse(Split(diff))
    ensures forall f :: f in files ==> WellReported(f)
  {
    hide WellReported;
    ParseIsWell(Split(diff));
    var lines := Split(diff);
    files := [];
    var section: DiffSection? := null;
    ghost var st := State([], None);
    for i := 0 to |lines|
      invariant st == Run(State([], None), lines[..i]) && files == st.files
      invariant section == null <==> st.section.None?
      invariant section != null ==> fresh(section) && section.Value() == st.section.value
    {
      assert lines[..i + 1][..i] == lines[..i];
      st := Step(st, lines[i]);
      if "diff --git " <= lines[i] {
        if section != null {
          files := files + Report(section.Value());
        }
        section := new DiffSection(PathFromDiffHeader(lines[i]));
      } else if section != null {
        section.FoldDiffBodyLine(lines[i]);
      }
    }
    assert lines[..|lines|] == lines;
    if section != null {
      files := files + Report(section.Value());
    }
  }
}
