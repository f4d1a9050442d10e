/**
 How git spells the paths of a diff: in the style of a C string, unless all its characters are plain ones.
 */
module GitQuoting {
  import opened Wrappers
  import opened HunkHeader

  /** The double quote. */
  const QUOTE: char := '\U{0022}'

  predicate Graphic(c: char) {
    ' ' <= c <= '~'
  }

  predicate AllGraphic(s: string) {
    forall i :: 0 <= i < |s| ==> Graphic(s[i])
  }

  /** A path git prints as it is. */
  predicate Unquoted(p: string) {
    AllGraphic(p) && forall i :: 0 <= i < |p| ==> p[i] != QUOTE && p[i] != '\\'
  }

  /** The bytes of a character in UTF-8 (RFC 3629, section 3). */
  function Utf8(c: char): (bytes: seq<nat>)
    ensures bytes != [] && forall i :: 0 <= i < |bytes| ==> bytes[i] < 256
  {
    var n := c as int;
    if n < 0x80 then [n]
    else if n < 0x800 then [0xC0 + n / 0x40, 0x80 + n % 0x40]
    else if n < 0x1_0000 then [0xE0 + n / 0x1000, 0x80 + n / 0x40 % 0x40, 0x80 + n % 0x40]
    else [0xF0 + n / 0x4_0000, 0x80 + n / 0x1000 % 0x40, 0x80 + n / 0x40 % 0x40, 0x80 + n % 0x40]
  }

  /** A byte as a backslash and three octal digits. */
  function OctalByte(b: nat): (s: string)
    requires b < 256
    ensures |s| == 4 && s[0] == '\\' && IsDigit(s[1]) && IsDigit(s[2]) && IsDigit(s[3])
  {
    ['\\', '0' + (b / 64) as char, '0' + (b / 8 % 8) as char, '0' + (b % 8) as char]
  }

  function Octal(bytes: seq<nat>): (s: string)
    requires forall i :: 0 <= i < |bytes| ==> bytes[i] < 256
    ensures |s| >= |bytes| && forall i :: 0 <= i < |s| ==> s[i] == '\\' || IsDigit(s[i])
  {
    if bytes == [] then "" else OctalByte(bytes[0]) + Octal(bytes[1..])
  }

  /** The letter that stands for a character behind a backslash, if it has one. */
  function Letter(c: char): (l: Option<char>)
    ensures l.Some? ==> Graphic(l.value) && l.value != ' ' && (l.value == QUOTE <==> c == QUOTE) && c != ' '
    ensures c == QUOTE ==> l == Some(QUOTE)
  {
    if c == QUOTE || c == '\\' then Some(c)
    else if c == '\U{0007}' then Some('a')
    else if c == '\U{0008}' then Some('b')
    else if c == '\t' then Some('t')
    else if c == '\n' then Some('n')
    else if c == '\U{000B}' then Some('v')
    else if c == '\U{000C}' then Some('f')
    else if c == '\r' then Some('r')
    else None
  }

  function EscapeChar(c: char): (s: string)
    ensures s != "" && AllGraphic(s)
    ensures if c == QUOTE then s == ['\\', QUOTE] else QUOTE !in s
    ensures if c == ' ' then s == [' '] else ' ' !in s
  {
    match Letter(c)
    case Some(l) => ['\\', l]
    case None => if Graphic(c) then [c] else Octal(Utf8(c))
  }

  function Escaped(p: string): (s: string)
    ensures |s| >= |p| && AllGraphic(s)
  {
    if p == "" then "" else Escaped(p[..|p| - 1]) + EscapeChar(p[|p| - 1])
  }

  function Occurrences(s: string, c: char): nat {
    if s == "" then 0 else Occurrences(s[..|s| - 1], c) + (if s[|s| - 1] == c then 1 else 0)
  }

  lemma {:induction false} OccurrencesConcat(a: string, b: string, c: char)
    ensures Occurrences(a + b, c) == Occurrences(a, c) + Occurrences(b, c)
  {
    if b == "" {
      assert a + b == a;
    } else {
      var n := |b| - 1;
      assert (a + b)[..|a + b| - 1] == a + b[..n];
      OccurrencesConcat(a, b[..n], c);
    }
  }

  lemma {:induction false} NoOccurrences(s: string, c: char)
    requires c !in s
    ensures Occurrences(s, c) == 0
  {
    if s != "" {
      NoOccurrences(s[..|s| - 1], c);
    }
  }

  lemma OneOccurrence(c: char, d: char)
    ensures Occurrences([d], c) == (if c == d then 1 else 0)
  {
    assert [d][..0] == "";
  }

  lemma EscapeCharOccurrences(d: char, c: char)
    requires c == QUOTE || c == ' '
    ensures Occurrences(EscapeChar(d), c) == (if c == d then 1 else 0)
  {
    hide Letter, Graphic, EscapeChar;
    if c == d == QUOTE {
      assert EscapeChar(d) == ['\\'] + [QUOTE];
      OccurrencesConcat(['\\'], [QUOTE], c);
      OneOccurrence(c, '\\');
      OneOccurrence(c, QUOTE);
    } else if c == d {
      OneOccurrence(c, d);
    } else {
      NoOccurrences(EscapeChar(d), c);
    }
  }

  /** Escaping neither adds nor drops a quote or a blank. */
  lemma {:induction false} EscapedOccurrences(p: string, c: char)
    requires c == QUOTE || c == ' '
    ensures Occurrences(Escaped(p), c) == Occurrences(p, c)
  {
    hide EscapeChar;
    if p != "" {
      var n := |p| - 1;
      EscapedOccurrences(p[..n], c);
      OccurrencesConcat(Escaped(p[..n]), EscapeChar(p[n]), c);
      EscapeCharOccurrences(p[n], c);
    }
  }

  /** A path behind its `a/` or `b/`. */
  function Label(prefix: string, p: string): (s: string)
    ensures AllGraphic(prefix) ==> AllGraphic(s)
  {
    if Unquoted(p) then prefix + p else [QUOTE] + prefix + Escaped(p) + [QUOTE]
  }

  lemma QuotedLabel(p: string)
    requires !Unquoted(p)
    ensures var s := Label("b/", p); |s| > |p| && s[0] == QUOTE && s[|s| - 1] == QUOTE
    ensures Occurrences(Label("b/", p), QUOTE) == Occurrences(p, QUOTE) + 2
    ensures Occurrences(Label("b/", p), ' ') == Occurrences(p, ' ')
  {
    hide Escaped, Occurrences, Unquoted;
    var head := [QUOTE] + "b/";
    assert Label("b/", p) == head + Escaped(p) + [QUOTE];
    HeadOccurrences();
    EscapedOccurrences(p, QUOTE);
    EscapedOccurrences(p, ' ');
    forall c
      ensures Occurrences(head + Escaped(p) + [QUOTE], c) ==
        Occurrences(head, c) + Occurrences(Escaped(p), c) + Occurrences([QUOTE], c)
    {
      OccurrencesConcat(head + Escaped(p), [QUOTE], c);
      OccurrencesConcat(head, Escaped(p), c);
    }
  }

  lemma HeadOccurrences()
    ensures Occurrences([QUOTE] + "b/", QUOTE) == 1 && Occurrences([QUOTE] + "b/", ' ') == 0
    ensures Occurrences([QUOTE], QUOTE) == 1 && Occurrences([QUOTE], ' ') == 0
  {
    OccurrencesConcat([QUOTE], "b/", QUOTE);
    NoOccurrences("b/", QUOTE);
    OneOccurrence(QUOTE, QUOTE);
    NoOccurrences([QUOTE] + "b/", ' ');
    NoOccurrences([QUOTE], ' ');
  }

  /** git ends a name that contains a blank with a tab. */
  function TextLabel(p: string): string {
    Label("b/", p) + (if ' ' in p then "\t" else "")
  }

  function GitHeader(oldPath: string, newPath: string): string {
    "diff --git " + Label("a/", oldPath) + " " + Label("b/", newPath)
  }
}
