/** The hunk-header pattern of scripts/coverage-changed/model.ts and the headers git prints. */
module HunkHeader {
  import opened Wrappers

  predicate IsDigit(c: char) {
    '0' <= c <= '9'
  }

  /** Decimal notation. */
  function Decimal(n: nat): (s: string)
    ensures |s| > 0 && forall i :: 0 <= i < |s| ==> IsDigit(s[i])
  {
    var digit := ['0' + (n % 10) as char];
    if n < 10 then digit else Decimal(n / 10) + digit
  }

  function DigitValue(c: char): nat
    requires IsDigit(c)
  {
    c as nat - '0' as nat
  }

  /** `Number(...)` of a run of digits. */
  function Number(s: string): nat
    requires forall i :: 0 <= i < |s| ==> IsDigit(s[i])
  {
    if s == [] then 0 else 10 * Number(s[..|s| - 1]) + DigitValue(s[|s| - 1])
  }

  lemma {:induction false} NumberOfDecimal(n: nat)
    ensures Number(Decimal(n)) == n
  {
    var s := Decimal(n);
    if n >= 10 {
      NumberOfDecimal(n / 10);
      assert s[..|s| - 1] == Decimal(n / 10);
    }
  }

  /** The end of the run of digits that starts at `i`. */
  function DigitsEnd(s: string, i: nat): (e: nat)
    requires i <= |s|
    ensures i <= e <= |s| && forall k :: i <= k < e ==> IsDigit(s[k])
    decreases |s| - i
  {
    if i < |s| && IsDigit(s[i]) then DigitsEnd(s, i + 1) else i
  }

  predicate LiteralAt(s: string, i: nat, literal: string) {
    i + |literal| <= |s| && s[i..i + |literal|] == literal
  }

  /** `(?:,\d+)?` */
  function SkipCount(s: string, i: nat): (e: nat)
    requires i <= |s|
    ensures i <= e <= |s|
  {
    if i < |s| && s[i] == ',' && DigitsEnd(s, i + 1) > i + 1 then DigitsEnd(s, i + 1) else i
  }

  /** The whole pattern, tried at one position; the captured start of the new side. */
  function MatchAt(s: string, i: nat): Option<nat> {
    if !LiteralAt(s, i, "@@ -") then None
    else
      var oldEnd := DigitsEnd(s, i + 4);
      var gap := SkipCount(s, oldEnd);
      if oldEnd == i + 4 || !LiteralAt(s, gap, " +") then None
      else
        var newEnd := DigitsEnd(s, gap + 2);
        if newEnd == gap + 2 || !LiteralAt(s, SkipCount(s, newEnd), " @@") then None
        else Some(Number(s[gap + 2..newEnd]))
  }

  /** `newStartOfHunk`: the first position at which the pattern matches. */
  function NewStartOfHunk(s: string): Option<nat> {
    SearchFrom(s, 0)
  }

  function SearchFrom(s: string, i: nat): Option<nat>
    decreases |s| - i
  {
    if MatchAt(s, i).Some? then MatchAt(s, i)
    else if i >= |s| then None
    else SearchFrom(s, i + 1)
  }

  // ---- the pattern, without the matcher ----

  ghost predicate Digits(s: string, i: nat, e: nat) {
    i < e <= |s| && forall k :: i <= k < e ==> IsDigit(s[k])
  }

  ghost predicate OptionalCount(s: string, i: nat, e: nat) {
    e == i || (i < |s| && s[i] == ',' && Digits(s, i + 1, e))
  }

  /** The pattern at `i`: the old side up to `gap`, the start of the new side up to `last`, its count up to `end`. */
  ghost predicate Pattern(s: string, i: nat, first: nat, gap: nat, last: nat, end: nat) {
    && LiteralAt(s, i, "@@ -") && Digits(s, i + 4, first) && OptionalCount(s, first, gap)
    && LiteralAt(s, gap, " +") && Digits(s, gap + 2, last) && OptionalCount(s, last, end) && LiteralAt(s, end, " @@")
  }

  ghost predicate Matches(s: string, i: nat, n: nat) {
    exists first: nat, gap: nat, last: nat, end: nat ::
      Pattern(s, i, first, gap, last, end) && n == Number(s[gap + 2..last])
  }

  lemma {:induction false} DigitsEndThere(s: string, i: nat, e: nat)
    requires Digits(s, i, e) && (e < |s| ==> !IsDigit(s[e]))
    ensures DigitsEnd(s, i) == e
    decreases e - i
  {
    if i + 1 < e {
      DigitsEndThere(s, i + 1, e);
    }
  }

  lemma LiteralStarts(s: string, i: nat, literal: string)
    requires LiteralAt(s, i, literal) && literal != []
    ensures i < |s| && s[i] == literal[0]
  {
  }

  lemma CountIsSkipped(s: string, i: nat, e: nat)
    requires OptionalCount(s, i, e) && e < |s| && s[e] == ' '
    ensures SkipCount(s, i) == e
  {
    if e != i {
      DigitsEndThere(s, i + 1, e);
    }
  }

  lemma NumberIsRead(s: string, i: nat, e: nat, rest: nat)
    requires Digits(s, i, e) && OptionalCount(s, e, rest) && rest < |s| && s[rest] == ' '
    ensures DigitsEnd(s, i) == e && SkipCount(s, e) == rest
  {
    hide DigitsEnd;
    CountIsSkipped(s, e, rest);
    DigitsEndThere(s, i, e);
  }

  lemma PatternIsMatched(s: string, i: nat, first: nat, gap: nat, last: nat, end: nat)
    requires Pattern(s, i, first, gap, last, end)
    ensures MatchAt(s, i) == Some(Number(s[gap + 2..last]))
  {
    hide DigitsEnd, SkipCount, LiteralAt, Number;
    LiteralStarts(s, gap, " +");
    LiteralStarts(s, end, " @@");
    NumberIsRead(s, i + 4, first, gap);
    NumberIsRead(s, gap + 2, last, end);
  }

  lemma SkippedIsCount(s: string, i: nat)
    requires i <= |s|
    ensures OptionalCount(s, i, SkipCount(s, i))
  {
  }

  lemma MatchIsPattern(s: string, i: nat)
    requires MatchAt(s, i).Some?
    ensures Matches(s, i, MatchAt(s, i).value)
  {
    hide DigitsEnd, SkipCount, Number;
    var first := DigitsEnd(s, i + 4);
    var gap := SkipCount(s, first);
    var last := DigitsEnd(s, gap + 2);
    SkippedIsCount(s, first);
    SkippedIsCount(s, last);
    assert Pattern(s, i, first, gap, last, SkipCount(s, last));
  }

  lemma {:induction false} SearchIsLeftmost(s: string, i: nat, n: nat)
    ensures SearchFrom(s, i) == Some(n) <==>
            exists k: nat :: i <= k <= |s| && MatchAt(s, k) == Some(n) &&
                             forall j: nat :: i <= j < k ==> MatchAt(s, j).None?
    decreases |s| - i
  {
    hide MatchAt;
    if MatchAt(s, i).None? && i < |s| {
      SearchIsLeftmost(s, i + 1, n);
    } else if i > |s| {
      NothingBeyond(s, i);
    }
  }

  lemma NothingBeyond(s: string, i: nat)
    requires i >= |s|
    ensures MatchAt(s, i).None?
  {
  }

  /** The number found is the one captured at the leftmost position where the pattern occurs. */
  lemma NewStartIsLeftmost(s: string, n: nat)
    ensures NewStartOfHunk(s) == Some(n) <==>
            exists i: nat :: Matches(s, i, n) && forall j: nat, m: nat :: j < i ==> !Matches(s, j, m)
  {
    hide MatchAt, Matches;
    SearchIsLeftmost(s, 0, n);
    forall i: nat, m: nat
      ensures Matches(s, i, m) <==> MatchAt(s, i) == Some(m)
    {
      MatchesIsMatch(s, i, m);
    }
    if i: nat :| Matches(s, i, n) && forall j: nat, m: nat :: j < i ==> !Matches(s, j, m) {
      if i > |s| {
        NothingBeyond(s, i);
      }
      forall j: nat | j < i
        ensures MatchAt(s, j).None?
      {
        SomethingMatches(s, j);
      }
    }
  }

  lemma SomethingMatches(s: string, i: nat)
    ensures MatchAt(s, i).Some? ==> exists m: nat :: Matches(s, i, m)
  {
    hide MatchAt, Matches;
    if MatchAt(s, i).Some? {
      MatchIsPattern(s, i);
    }
  }

  lemma MatchesIsMatch(s: string, i: nat, m: nat)
    ensures Matches(s, i, m) <==> MatchAt(s, i) == Some(m)
  {
    hide MatchAt, Number;
    if Matches(s, i, m) {
      var first: nat, gap: nat, last: nat, end: nat :|
        Pattern(s, i, first, gap, last, end) && m == Number(s[gap + 2..last]);
      PatternIsMatched(s, i, first, gap, last, end);
    }
    if MatchAt(s, i) == Some(m) {
      MatchIsPattern(s, i);
    }
  }

  // ---- printing ----

  /** git leaves out a count of one. */
  function Range(start: nat, count: nat): string {
    if count == 1 then Decimal(start) else Decimal(start) + "," + Decimal(count)
  }

  function Header(oldStart: nat, oldCount: nat, newStart: nat, newCount: nat, heading: string): string {
    "@@ -" + (Range(oldStart, oldCount) + (" +" + (Range(newStart, newCount) + (" @@" + heading))))
  }

  /** What is left of `s` from `i` on. */
  ghost predicate At(s: string, i: nat, rest: string) {
    i <= |s| && s[i..] == rest
  }

  /** Reading past a known prefix of what is left. */
  lemma Advance(s: string, i: nat, a: string, b: string)
    requires At(s, i, a + b)
    ensures At(s, i + |a|, b) && i + |a| <= |s| && LiteralAt(s, i, a) && s[i..i + |a|] == a
    ensures a != [] ==> s[i] == a[0]
  {
  }

  lemma {:induction false} DigitsEndAt(s: string, i: nat, d: string, rest: string)
    requires At(s, i, d + rest) && forall k :: 0 <= k < |d| ==> IsDigit(d[k])
    requires rest == [] || !IsDigit(rest[0])
    ensures i <= |s| && DigitsEnd(s, i) == i + |d|
    decreases |d|
  {
    if d != [] {
      assert s[i] == s[i..][0] == d[0];
      assert s[i + 1..] == s[i..][1..] == d[1..] + rest;
      DigitsEndAt(s, i + 1, d[1..], rest);
    } else if rest != [] {
      assert s[i] == s[i..][0] == rest[0];
    }
  }

  lemma DecimalIsRead(s: string, i: nat, n: nat, rest: string)
    requires At(s, i, Decimal(n) + rest) && rest != [] && !IsDigit(rest[0])
    ensures i < i + |Decimal(n)| < |s| && DigitsEnd(s, i) == i + |Decimal(n)| && At(s, i + |Decimal(n)|, rest)
    ensures s[i..i + |Decimal(n)|] == Decimal(n) && s[i + |Decimal(n)|] == rest[0]
  {
    DigitsEndAt(s, i, Decimal(n), rest);
    Advance(s, i, Decimal(n), rest);
    Advance(s, i + |Decimal(n)|, rest, []) by {
      assert rest + [] == rest;
    }
  }

  /** A printed range is read to its end, and its first number is the start. */
  lemma RangeIsRead(s: string, i: nat, start: nat, count: nat, rest: string)
    requires At(s, i, Range(start, count) + rest) && rest != [] && rest[0] == ' '
    ensures i <= |s|
    ensures var e := DigitsEnd(s, i);
      e > i && s[i..e] == Decimal(start) && SkipCount(s, e) == i + |Range(start, count)|
  {
    if count == 1 {
      hide Decimal, DigitsEnd, At;
      DecimalIsRead(s, i, start, rest);
    } else {
      hide Decimal, DigitsEnd, SkipCount, At;
      var c := Decimal(count);
      assert Range(start, count) + rest == Decimal(start) + ("," + (c + rest));
      CountedRangeIsRead(s, i, start, count, rest);
    }
  }

  lemma CountedRangeIsRead(s: string, i: nat, start: nat, count: nat, rest: string)
    requires At(s, i, Decimal(start) + ("," + (Decimal(count) + rest))) && rest != [] && rest[0] == ' '
    ensures i <= |s|
    ensures var e := DigitsEnd(s, i);
      e > i && s[i..e] == Decimal(start) && SkipCount(s, e) == e + 1 + |Decimal(count)|
  {
    hide Decimal, DigitsEnd, At;
    var e := i + |Decimal(start)|;
    DecimalIsRead(s, i, start, "," + (Decimal(count) + rest));
    Advance(s, e, ",", Decimal(count) + rest);
    DecimalIsRead(s, e + 1, count, rest);
  }

  lemma MatchAtStart(s: string, gap: nat, newEnd: nat)
    requires LiteralAt(s, 0, "@@ -") && DigitsEnd(s, 4) > 4 && gap == SkipCount(s, DigitsEnd(s, 4))
    requires LiteralAt(s, gap, " +") && newEnd == DigitsEnd(s, gap + 2) > gap + 2
    requires LiteralAt(s, SkipCount(s, newEnd), " @@")
    ensures NewStartOfHunk(s) == Some(Number(s[gap + 2..newEnd]))
  {
  }

  lemma OldSideIsRead(s: string, start: nat, count: nat, rest: string)
    requires At(s, 0, "@@ -" + (Range(start, count) + (" +" + rest)))
    ensures LiteralAt(s, 0, "@@ -") && DigitsEnd(s, 4) > 4
    ensures var gap := SkipCount(s, DigitsEnd(s, 4)); LiteralAt(s, gap, " +") && At(s, gap + 2, rest)
  {
    hide Decimal, DigitsEnd, SkipCount, Range, At, LiteralAt;
    var r := Range(start, count);
    Advance(s, 0, "@@ -", r + (" +" + rest));
    RangeIsRead(s, 4, start, count, " +" + rest);
    Advance(s, 4, r, " +" + rest);
    Advance(s, 4 + |r|, " +", rest);
  }

  lemma NewSideIsRead(s: string, i: nat, start: nat, count: nat, heading: string)
    requires At(s, i, Range(start, count) + (" @@" + heading))
    ensures i <= |s|
    ensures var e := DigitsEnd(s, i);
      e > i && s[i..e] == Decimal(start) && LiteralAt(s, SkipCount(s, e), " @@")
  {
    hide Decimal, DigitsEnd, SkipCount, Range, At, LiteralAt;
    var r := Range(start, count);
    RangeIsRead(s, i, start, count, " @@" + heading);
    Advance(s, i, r, " @@" + heading);
    Advance(s, i + |r|, " @@", heading);
  }

  /** The gate reads back the new-side start of every header git prints, whatever heading follows. */
  lemma HeaderRoundTrip(oldStart: nat, oldCount: nat, newStart: nat, newCount: nat, heading: string)
    ensures NewStartOfHunk(Header(oldStart, oldCount, newStart, newCount, heading)) == Some(newStart)
  {
    hide Decimal, DigitsEnd, SkipCount, Range, At, LiteralAt, MatchAt, NewStartOfHunk;
    var s := Header(oldStart, oldCount, newStart, newCount, heading);
    WholeIsLeft(s);
    OldSideIsRead(s, oldStart, oldCount, Range(newStart, newCount) + (" @@" + heading));
    var gap := SkipCount(s, DigitsEnd(s, 4));
    NewSideIsRead(s, gap + 2, newStart, newCount, heading);
    MatchAtStart(s, gap, DigitsEnd(s, gap + 2));
    NumberOfDecimal(newStart);
  }

  lemma WholeIsLeft(s: string)
    ensures At(s, 0, s)
  {
  }
}
