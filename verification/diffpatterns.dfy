/** The spellings of a path that scripts/coverage-changed/model.ts reads, on lines git need not have printed. */
module DiffPatterns {
  import opened Wrappers
  import opened HunkHeader
  import opened UnifiedDiff

  /** White space and line terminators, one by one (sections 12.2 and 12.3 of ECMA-262). */
  const WHITE_SPACE: set<char> := {
    '\t', '\n', '\r', ' ', '\U{000B}', '\U{000C}', '\U{00A0}', '\U{1680}', '\U{2000}', '\U{2001}', '\U{2002}',
    '\U{2003}', '\U{2004}', '\U{2005}', '\U{2006}', '\U{2007}', '\U{2008}', '\U{2009}', '\U{200A}', '\U{2028}',
    '\U{2029}', '\U{202F}', '\U{205F}', '\U{3000}', '\U{FEFF}'}

  lemma SpacesAreWhite(c: char)
    ensures IsSpace(c) <==> c in WHITE_SPACE
  {
    if '\U{2000}' <= c <= '\U{200A}' {
      var offset := c as int - 0x2000;
      assert 0 <= offset <= 10;
    }
  }

  /** Blanks around a path. */
  ghost predicate Blank(s: string) {
    forall i :: 0 <= i < |s| ==> s[i] in WHITE_SPACE
  }

  lemma {:induction false} TrimStartDrops(pre: string, w: string)
    requires Blank(pre) && w != "" && !IsSpace(w[0])
    ensures TrimStart(pre + w) == w
  {
    hide IsSpace;
    if pre == "" {
      assert pre + w == w;
    } else {
      assert (pre + w)[1..] == pre[1..] + w;
      SpacesAreWhite(pre[0]);
      TrimStartDrops(pre[1..], w);
    }
  }

  lemma {:induction false} TrimEndDrops(w: string, post: string)
    requires Blank(post) && w != "" && !IsSpace(w[|w| - 1])
    ensures TrimEnd(w + post) == w
  {
    hide IsSpace;
    var n := |post| - 1;
    if post == "" {
      assert w + post == w;
    } else {
      assert (w + post)[..|w| + n] == w + post[..n];
      SpacesAreWhite(post[n]);
      TrimEndDrops(w, post[..n]);
    }
  }

  /** Blanks around a path go, backslashes turn, and one leading `b/` and then one leading `./` go. */
  lemma NormalizedPath(pre: string, w: string, post: string)
    requires Blank(pre) && Blank(post) && w != "" && w[0] !in WHITE_SPACE && w[|w| - 1] !in WHITE_SPACE
    ensures
      var turned := seq(|w|, i requires 0 <= i < |w| => if w[i] == '\\' then '/' else w[i]);
      NormalizePath(pre + w + post) ==
        if "b/./" <= turned then turned[4..]
        else if "b/" <= turned || "./" <= turned then turned[2..]
        else turned
  {
    hide IsSpace, TrimStart, TrimEnd, WHITE_SPACE;
    SpacesAreWhite(w[0]);
    SpacesAreWhite(w[|w| - 1]);
    assert pre + w + post == pre + (w + post);
    TrimStartDrops(pre, w + post);
    TrimEndDrops(w, post);
    var turned := seq(|w|, i requires 0 <= i < |w| => if w[i] == '\\' then '/' else w[i]);
    assert ForwardSlashes(w) == turned;
    BothPrefixes(turned);
  }

  lemma BothPrefixes(t: string)
    ensures Strip(Strip(t, "b/"), "./") ==
            if "b/./" <= t then t[4..] else if "b/" <= t || "./" <= t then t[2..] else t
  {
    if "b/" <= t {
      assert "b/./" <= t <==> "./" <= t[2..];
    }
  }

  /** `diff --git a/`, some text, ` b/`, and some text up to the end of the line. */
  ghost predicate Splits(line: string, k: nat) {
    && "diff --git a/" <= line && |"diff --git a/"| < k && LiteralAt(line, k, " b/") && k + 3 < |line|
    && forall i :: 0 <= i < |line| ==> line[i] !in {'\n', '\r', '\U{2028}', '\U{2029}'}
  }

  lemma {:induction false} LastMarkIsLast(line: string, k: nat)
    requires k <= |line|
    ensures match LastMark(line, k)
      case Some(m) => forall j: nat :: m < j <= k && j + 3 < |line| ==> !LiteralAt(line, j, " b/")
      case None => forall j: nat :: 14 <= j <= k && j + 3 < |line| ==> !LiteralAt(line, j, " b/")
  {
    if k >= 14 && !(LiteralAt(line, k, " b/") && k + 3 < |line|) {
      LastMarkIsLast(line, k - 1);
    }
  }

  /** The greedy pattern splits the line at the last mark it can, and a line it cannot split names nothing. */
  lemma HeaderIsSplit(line: string, k: nat)
    ensures (forall j: nat :: !Splits(line, j)) ==> PathFromDiffHeader(line) == ""
    ensures Splits(line, k) && (forall j: nat :: Splits(line, j) ==> j <= k) ==>
              PathFromDiffHeader(line) == NormalizePath(line[k + 3..])
  {
    hide NormalizePath, LastMark;
    LastMarkIsLast(line, |line|);
    if "diff --git a/" <= line && !HasLineBreak(line) {
      var mark := LastMark(line, |line|);
      assert mark.Some? ==> Splits(line, mark.value);
    }
  }

  // ---- hunk bodies with any amount of context ----

  /** A line of a hunk body: context, removed, added or the missing-newline marker. */
  ghost predicate BodyLine(line: string) {
    line == "" || line[0] == ' ' || line[0] == '-' || line[0] == '\\' || (line[0] == '+' && !("+++" <= line))
  }

  /** The line is on the new side. */
  predicate OnNewSide(line: string) {
    line == "" || line[0] == ' ' || line[0] == '+'
  }

  /** How many lines of the new side there are. */
  function NewSide(lines: seq<string>): nat {
    if lines == [] then 0 else NewSide(lines[..|lines| - 1]) + (if OnNewSide(lines[|lines| - 1]) then 1 else 0)
  }

  /** `n` numbers an added line when the new side starts at `first`. */
  ghost predicate Adds(lines: seq<string>, first: nat, n: nat) {
    exists k :: 0 <= k < |lines| && "+" <= lines[k] && n == first + NewSide(lines[..k])
  }

  lemma AddsOneMore(lines: seq<string>, first: nat, n: nat)
    requires lines != []
    ensures var k := |lines| - 1;
      Adds(lines, first, n) <==> Adds(lines[..k], first, n) || ("+" <= lines[k] && n == first + NewSide(lines[..k]))
  {
    hide NewSide;
    var k := |lines| - 1;
    assert forall j :: 0 <= j < k ==> lines[..k][..j] == lines[..j];
    if Adds(lines[..k], first, n) {
      var j :| 0 <= j < k && "+" <= lines[..k][j] && n == first + NewSide(lines[..k][..j]);
      assert "+" <= lines[j] && n == first + NewSide(lines[..j]);
    }
    if Adds(lines, first, n) {
      var j :| 0 <= j < |lines| && "+" <= lines[j] && n == first + NewSide(lines[..j]);
      if j < k {
        assert "+" <= lines[..k][j] && n == first + NewSide(lines[..k][..j]);
      }
    }
  }

  /** A hunk body with context adds exactly its added lines, numbered by their place on the new side. */
  lemma {:induction false} BodyIsNumbered(sec: Section, lines: seq<string>, n: nat)
    requires forall line :: line in lines ==> BodyLine(line)
    ensures var after := Fold(sec, lines);
      && after.path == sec.path && after.deleted == sec.deleted && after.cursor == sec.cursor + NewSide(lines)
      && (n in after.added <==> n in sec.added || Adds(lines, sec.cursor, n))
  {
    if lines != [] {
      hide Adds, BodyLine, FoldLine;
      var k := |lines| - 1;
      assert lines[k] in lines && forall line :: line in lines[..k] ==> line in lines;
      BodyIsNumbered(sec, lines[..k], n);
      AddsOneMore(lines, sec.cursor, n);
      BodyStep(Fold(sec, lines[..k]), lines[k], n);
    } else {
      assert !Adds(lines, sec.cursor, n);
    }
  }

  lemma BodyStep(sec: Section, line: string, n: nat)
    requires BodyLine(line)
    ensures var after := FoldLine(sec, line);
      && after.path == sec.path && after.deleted == sec.deleted
      && after.cursor == sec.cursor + (if OnNewSide(line) then 1 else 0)
      && (n in after.added <==> n in sec.added || ("+" <= line && n == sec.cursor))
  {
    hide NewStartOfHunk, NormalizePath;
    assert "+++ " <= line ==> "+++" <= line;
  }
}
