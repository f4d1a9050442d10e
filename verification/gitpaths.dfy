/** What the diff fold of scripts/coverage-changed/model.ts makes of the paths git prints. */
module GitPaths {
  import opened Wrappers
  import opened HunkHeader
  import opened UnifiedDiff
  import opened GitQuoting

  // ---- the paths that survive ----

  /** A path a `+++` line still spells out. */
  predicate PlainPath(p: string) {
    p != "" && Unquoted(p) && p[|p| - 1] != ' '
  }

  /** A path the `diff --git` line alone still spells out. */
  predicate HeaderPath(p: string) {
    PlainPath(p) && p[0] != ' ' && !("b/" <= p) && NoInnerMark(p)
  }

  predicate NoInnerMark(p: string) {
    forall k :: 0 <= k < |p| - 3 ==> !LiteralAt(p, k, " b/")
  }

  /** A path inside a repository. */
  predicate RelativePath(p: string) {
    p != "" && !("./" <= p)
  }

  lemma RelativeByFirst(p: string)
    requires p != "" && p[0] != '.'
    ensures RelativePath(p)
  {
  }

  // ---- trimming and normalizing ----

  lemma TrimKept(s: string)
    requires s != [] && !IsSpace(s[0]) && !IsSpace(s[|s| - 1])
    ensures Trim(s) == s
  {
  }

  lemma TrimTab(s: string)
    requires s != [] && !IsSpace(s[0])
    ensures Trim(s + "\t") == Trim(s)
  {
    assert (s + "\t")[..|s|] == s;
    assert TrimEnd(s + "\t") == TrimEnd(s);
  }

  lemma {:induction false} TrimStartCounts(s: string)
    ensures |TrimStart(s)| <= |s| && (s != [] && IsSpace(s[0]) ==> |TrimStart(s)| < |s|)
    ensures Occurrences(TrimStart(s), QUOTE) == Occurrences(s, QUOTE) &&
      Occurrences(TrimStart(s), ' ') <= Occurrences(s, ' ')
  {
    hide Occurrences;
    if s != [] && IsSpace(s[0]) {
      TrimStartCounts(s[1..]);
      assert s == [s[0]] + s[1..];
      OccurrencesConcat([s[0]], s[1..], QUOTE);
      OccurrencesConcat([s[0]], s[1..], ' ');
      OneOccurrence(QUOTE, s[0]);
    }
  }

  lemma {:induction false} TrimEndCounts(s: string)
    ensures |TrimEnd(s)| <= |s| && (TrimEnd(s) != [] ==> !IsSpace(TrimEnd(s)[|TrimEnd(s)| - 1]))
    ensures Occurrences(TrimEnd(s), QUOTE) == Occurrences(s, QUOTE) &&
      Occurrences(TrimEnd(s), ' ') <= Occurrences(s, ' ')
  {
    if s != [] && IsSpace(s[|s| - 1]) {
      TrimEndCounts(s[..|s| - 1]);
    }
  }

  lemma {:induction false} SlashCounts(s: string)
    ensures Occurrences(ForwardSlashes(s), QUOTE) == Occurrences(s, QUOTE) &&
      Occurrences(ForwardSlashes(s), ' ') == Occurrences(s, ' ')
  {
    if s != [] {
      var n := |s| - 1;
      SlashCounts(s[..n]);
      assert ForwardSlashes(s)[..n] == ForwardSlashes(s[..n]);
    }
  }

  lemma StripCounts(s: string, prefix: string)
    requires QUOTE !in prefix
    ensures var r := Strip(s, prefix);
      && |r| <= |s| && (r != [] ==> r[|r| - 1] == s[|s| - 1])
      && Occurrences(r, QUOTE) == Occurrences(s, QUOTE) && Occurrences(r, ' ') <= Occurrences(s, ' ')
  {
    hide Occurrences;
    if prefix <= s {
      var r := s[|prefix|..];
      assert s == prefix + r;
      NoOccurrences(prefix, QUOTE);
      OccurrencesConcat(prefix, r, QUOTE);
      OccurrencesConcat(prefix, r, ' ');
    }
  }

  /** Normalizing never lengthens a path, drops no quote, adds no blank and leaves none at the end. */
  lemma NormalizeCounts(s: string)
    ensures var r := NormalizePath(s);
      && |r| <= |s| && (r != [] ==> !IsSpace(r[|r| - 1]))
      && (s != [] && IsSpace(s[0]) ==> |r| < |s|)
      && Occurrences(r, QUOTE) == Occurrences(s, QUOTE) && Occurrences(r, ' ') <= Occurrences(s, ' ')
  {
    hide IsSpace, TrimStart, TrimEnd, ForwardSlashes, Strip, Occurrences;
    var t := Trim(s);
    TrimStartCounts(s);
    TrimEndCounts(TrimStart(s));
    SlashCounts(t);
    LastOfSlashes(t);
    var f := ForwardSlashes(t);
    StripCounts(f, "b/");
    StripCounts(Strip(f, "b/"), "./");
  }

  lemma LastOfSlashes(t: string)
    ensures t != [] && !IsSpace(t[|t| - 1]) ==> !IsSpace(ForwardSlashes(t)[|t| - 1])
  {
  }

  // ---- what a `+++` line says ----

  /** The path the fold takes from a `+++` line. */
  function LabelPath(p: string): string {
    NormalizePath(Trim(TextLabel(p)))
  }

  lemma TextLabelTrimmed(p: string)
    requires p != ""
    ensures Trim(TextLabel(p)) == Trim(Label("b/", p)) != "/dev/null"
  {
    hide IsSpace, Trim, Escaped, Unquoted;
    var spelt := Label("b/", p);
    assert spelt + "" == spelt;
    assert spelt[0] == 'b' || spelt[0] == QUOTE;
    GraphicSpace(spelt[0]);
    TrimTab(spelt);
    FirstKept(spelt);
    assert "/dev/null"[0] == '/';
  }

  lemma GraphicSpace(c: char)
    requires Graphic(c)
    ensures IsSpace(c) <==> c == ' '
  {
  }

  lemma {:induction false} FirstKept(s: string)
    requires s != [] && !IsSpace(s[0])
    ensures Trim(s) != [] && Trim(s)[0] == s[0]
  {
    if IsSpace(s[|s| - 1]) {
      FirstKept(s[..|s| - 1]);
    }
  }

  /** A `+++` line gives the right path for plain paths, and for them only. */
  lemma LabelNamesFile(p: string)
    requires RelativePath(p)
    ensures LabelPath(p) == p <==> PlainPath(p)
  {
    hide IsSpace, Trim, Escaped;
    var spelt := Label("b/", p);
    var last := p[|p| - 1];
    TextLabelTrimmed(p);
    GraphicSpace('b');
    GraphicSpace(QUOTE);
    if !Unquoted(p) {
      QuotedLabel(p);
      TrimKept(spelt);
      assert ForwardSlashes(spelt)[0] == QUOTE;
      assert |NormalizePath(spelt)| == |spelt|;
    } else {
      GraphicSpace(last);
      assert spelt[|spelt| - 1] == last;
      if last == ' ' {
        NormalizeCounts(Trim(spelt));
      } else {
        TrimKept(spelt);
        assert ForwardSlashes(spelt) == spelt && spelt[2..] == p;
      }
    }
  }

  // ---- what a `diff --git` line says ----

  lemma {:induction false} LastMarkIs(line: string, k: nat, mark: nat)
    requires 14 <= mark <= k <= |line| && LiteralAt(line, mark, " b/") && mark + 3 < |line|
    ensures LastMark(line, k).Some? && mark <= LastMark(line, k).value <= k
    ensures (forall j :: mark < j <= k && j + 3 < |line| ==> !LiteralAt(line, j, " b/")) ==>
      LastMark(line, k) == Some(mark)
  {
    hide LiteralAt;
    if k > mark {
      LastMarkIs(line, k - 1, mark);
    }
  }

  /** Behind the separator, the ` b/` marks of the line are those of the new path. */
  lemma Marks(head: string, p: string)
    ensures var line := head + " b/" + p;
      && LiteralAt(line, |head|, " b/")
      && (forall k :: 0 <= k <= |p| - 3 ==> (LiteralAt(line, |head| + 3 + k, " b/") <==> LiteralAt(p, k, " b/")))
      && (forall j :: |head| < j <= |line| && LiteralAt(line, j, " b/") ==> |head| + 3 <= j)
  {
    var line := head + " b/" + p;
    forall k | 0 <= k <= |p| - 3
      ensures LiteralAt(line, |head| + 3 + k, " b/") <==> LiteralAt(p, k, " b/")
    {
      assert line[|head| + 3 + k..|head| + 3 + k + 3] == p[k..k + 3];
    }
    forall j | |head| < j < |head| + 3
      ensures !LiteralAt(line, j, " b/")
    {
      assert j + 3 <= |line| ==> line[j..j + 3][0] == line[j];
    }
  }

  /** The separator is the one before the new path, unless that path has a mark of its own. */
  lemma LastMarkOfLine(head: string, p: string)
    requires |head| >= 14 && p != ""
    ensures var line := head + " b/" + p;
      && LastMark(line, |line|).Some? && LastMark(line, |line|).value >= |head|
      && (LastMark(line, |line|).value == |head| <==> NoInnerMark(p))
  {
    hide LiteralAt, LastMark;
    var line := head + " b/" + p;
    Marks(head, p);
    LastMarkIs(line, |line|, |head|);
    if NoInnerMark(p) {
      forall j | |head| < j <= |line| && j + 3 < |line|
        ensures !LiteralAt(line, j, " b/")
      {
        if |head| + 3 <= j {
          assert !LiteralAt(p, j - |head| - 3, " b/");
        }
      }
    } else {
      var k :| 0 <= k < |p| - 3 && LiteralAt(p, k, " b/");
      LastMarkIs(line, |line|, |head| + 3 + k);
    }
  }

  lemma NoLineBreak(s: string)
    requires AllGraphic(s)
    ensures !HasLineBreak(s)
  {
  }

  lemma PlainHeader(oldPath: string, newPath: string)
    requires oldPath != "" && RelativePath(newPath) && Unquoted(oldPath) && Unquoted(newPath)
    ensures PathFromDiffHeader(GitHeader(oldPath, newPath)) == newPath <==> HeaderPath(newPath)
  {
    hide NormalizePath, IsSpace, Unquoted, NoInnerMark, PathFromDiffHeader, GitHeader;
    var rest := BehindLastMark(oldPath, newPath);
    NormalizeCounts(newPath);
    NormalizeCounts(rest);
    NormalizeGraphic(newPath);
  }

  lemma BehindLastMark(oldPath: string, newPath: string) returns (rest: string)
    requires oldPath != "" && newPath != "" && Unquoted(oldPath) && Unquoted(newPath)
    ensures PathFromDiffHeader(GitHeader(oldPath, newPath)) == NormalizePath(rest)
    ensures if NoInnerMark(newPath) then rest == newPath else |rest| < |newPath|
  {
    hide LiteralAt, LastMark, NormalizePath, IsSpace, HasLineBreak, Unquoted, AllGraphic, NoInnerMark, Escaped;
    var line, head := GitHeader(oldPath, newPath), "diff --git a/" + oldPath;
    PlainHeaderParts(oldPath, newPath);
    LastMarkOfLine(head, newPath);
    var m := LastMark(line, |line|).value;
    rest := line[m + 3..];
  }

  lemma PlainHeaderParts(oldPath: string, newPath: string)
    requires Unquoted(oldPath)
    ensures var line := GitHeader(oldPath, newPath);
      && "diff --git a/" <= line && !HasLineBreak(line)
      && line == "diff --git a/" + oldPath + " " + Label("b/", newPath)
      && (Unquoted(newPath) ==> line == "diff --git a/" + oldPath + " b/" + newPath)
  {
    hide Label, HasLineBreak, AllGraphic, Unquoted;
    PlainLabel("a/", oldPath);
    HeaderIsGraphic(oldPath, newPath);
    NoLineBreak(GitHeader(oldPath, newPath));
    var head := "diff --git a/" + oldPath;
    assert "diff --git " + ("a/" + oldPath) == head;
    if Unquoted(newPath) {
      PlainLabel("b/", newPath);
      assert head + " " + ("b/" + newPath) == head + " b/" + newPath;
    }
  }

  lemma PlainLabel(prefix: string, p: string)
    requires Unquoted(p)
    ensures Label(prefix, p) == prefix + p
  {
  }

  lemma HeaderStarts(oldPath: string, newPath: string)
    ensures "diff --git " <= GitHeader(oldPath, newPath)
  {
    hide Label;
  }

  lemma HeaderIsGraphic(oldPath: string, newPath: string)
    ensures AllGraphic(GitHeader(oldPath, newPath))
  {
    hide Label;
    assert AllGraphic("diff --git ") && AllGraphic("a/") && AllGraphic("b/") && AllGraphic(" ");
  }

  lemma NormalizeGraphic(p: string)
    requires RelativePath(p) && Unquoted(p)
    ensures IsSpace(p[0]) <==> p[0] == ' '
    ensures IsSpace(p[|p| - 1]) <==> p[|p| - 1] == ' '
    ensures p[0] != ' ' && p[|p| - 1] != ' ' ==> (NormalizePath(p) == p <==> !("b/" <= p))
  {
    hide IsSpace, Trim;
    GraphicSpace(p[0]);
    GraphicSpace(p[|p| - 1]);
    if p[0] != ' ' && p[|p| - 1] != ' ' {
      TrimKept(p);
      assert ForwardSlashes(p) == p;
    }
  }

  /** Whatever mark the pattern settles on, a quoted path comes back with a quote too many or a blank too few. */
  lemma QuotedNewPath(oldPath: string, newPath: string)
    requires Unquoted(oldPath) && !Unquoted(newPath)
    ensures PathFromDiffHeader(GitHeader(oldPath, newPath)) != newPath
  {
    hide LastMark, NormalizePath, HasLineBreak, Occurrences, Unquoted, Label, LiteralAt;
    var line, head, spelt := GitHeader(oldPath, newPath), "diff --git a/" + oldPath, Label("b/", newPath);
    PlainHeaderParts(oldPath, newPath);
    QuotedLabel(newPath);
    UnquotedEmpty();
    var mark := LastMark(line, |line|);
    if mark.Some? {
      NormalizeCounts(line[mark.value + 3..]);
      BehindMark(head, spelt, mark.value);
    }
  }

  lemma UnquotedEmpty()
    ensures Unquoted("")
  {
  }

  /** What follows a mark holds the whole label, or leaves out one of its blanks. */
  lemma BehindMark(head: string, spelt: string, m: nat)
    requires spelt != "" && spelt[0] == QUOTE && LiteralAt(head + " " + spelt, m, " b/")
    ensures var rest := (head + " " + spelt)[m + 3..];
      Occurrences(rest, QUOTE) >= Occurrences(spelt, QUOTE) || Occurrences(rest, ' ') < Occurrences(spelt, ' ')
  {
    hide Occurrences;
    var line := head + " " + spelt;
    var rest := line[m + 3..];
    assert line[m] == line[m..m + 3][0] && line[m + 1] == line[m..m + 3][1] && line[m + 2] == line[m..m + 3][2];
    assert line[|head|] == ' ' && line[|head| + 1] == QUOTE;
    if m < |head| {
      assert m + 3 <= |head|;
      var between := line[m + 3..|head| + 1];
      assert rest == between + spelt;
      OccurrencesConcat(between, spelt, QUOTE);
    } else {
      var k := m - |head| - 1;
      assert spelt == spelt[..k] + [' '] + (spelt[k + 1..k + 3] + rest);
      OccurrencesConcat(spelt[..k] + [' '], spelt[k + 1..k + 3] + rest, ' ');
      OccurrencesConcat(spelt[..k], [' '], ' ');
      OccurrencesConcat(spelt[k + 1..k + 3], rest, ' ');
      OneOccurrence(' ', ' ');
    }
  }

  /** The `diff --git` line gives the right path for header paths beside an unquoted old one, and for them only. */
  lemma HeaderNamesFile(oldPath: string, newPath: string)
    requires oldPath != "" && RelativePath(newPath)
    ensures PathFromDiffHeader(GitHeader(oldPath, newPath)) == newPath <==> Unquoted(oldPath) && HeaderPath(newPath)
  {
    hide LastMark, NormalizePath, HasLineBreak, NoInnerMark, Unquoted, Escaped;
    if !Unquoted(oldPath) {
      assert GitHeader(oldPath, newPath)[11] == QUOTE != "diff --git a/"[11];
    } else if Unquoted(newPath) {
      PlainHeader(oldPath, newPath);
    } else {
      QuotedNewPath(oldPath, newPath);
    }
  }
}
