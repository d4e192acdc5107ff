/** Character classes and string operations shared by both scraper
    iterations: the pieces of Python's `str` and `re` behaviour the model
    relies on (`str.strip`, `str.split`, `str.join`, `\d`, `\w`, `\s` and
    ASCII case folding). */
module Text {

  /** `\d`, restricted to ASCII digits. */
  predicate IsDigit(c: char) {
    '0' <= c <= '9'
  }

  predicate IsAsciiLetter(c: char) {
    ('A' <= c <= 'Z') || ('a' <= c <= 'z')
  }

  /** `\w`, restricted to ASCII: the characters a `\b` boundary separates
      from everything else. */
  predicate IsWordChar(c: char) {
    IsAsciiLetter(c) || IsDigit(c) || c == '_'
  }

  /** Python's `str.isspace()`, which is also what `\s` matches in a `str`
      pattern. */
  predicate IsSpace(c: char) {
    || c == ' '
    || ('\t' <= c <= '\r')
    || ('\U{1C}' <= c <= '\U{1F}')
    || c == '\U{85}' || c == '\U{A0}' || c == '\U{1680}'
    || ('\U{2000}' <= c <= '\U{200A}')
    || c == '\U{2028}' || c == '\U{2029}' || c == '\U{202F}'
    || c == '\U{205F}' || c == '\U{3000}'
  }

  predicate IsNumeral(s: string) {
    |s| > 0 && forall i :: 0 <= i < |s| ==> IsDigit(s[i])
  }

  predicate AllSpace(s: string) {
    forall i :: 0 <= i < |s| ==> IsSpace(s[i])
  }

  predicate HasDigit(s: string) {
    exists i :: 0 <= i < |s| && IsDigit(s[i])
  }

  /** Length of the run of digits that starts `s`. */
  function DigitRun(s: string): (n: nat)
    ensures n <= |s|
    ensures forall i :: 0 <= i < n ==> IsDigit(s[i])
    ensures n == |s| || !IsDigit(s[n])
  {
    if s != [] && IsDigit(s[0]) then 1 + DigitRun(s[1..]) else 0
  }

  /** The digits of a numeral that ends `s` at position `a`. */
  lemma DigitsOfTail(s: string, a: nat)
    requires a <= |s| && IsNumeral(s[a..])
    ensures forall i :: a <= i < |s| ==> IsDigit(s[i])
  {
    forall i | a <= i < |s|
      ensures IsDigit(s[i])
    {
      assert s[i] == s[a..][i - a];
    }
  }

  /** Length of the run of whitespace that starts `s`. */
  function SpaceRun(s: string): (n: nat)
    ensures n <= |s|
    ensures AllSpace(s[..n])
    ensures n == |s| || !IsSpace(s[n])
  {
    if s != [] && IsSpace(s[0]) then 1 + SpaceRun(s[1..]) else 0
  }

  /** The digit run of `a + b` is `a` itself when `a` is all digits and `b`
      does not continue it. */
  lemma {:induction false} DigitRunOfNumeral(a: string, b: string)
    requires forall i :: 0 <= i < |a| ==> IsDigit(a[i])
    requires b == [] || !IsDigit(b[0])
    ensures DigitRun(a + b) == |a|
  {
    if a != [] {
      assert (a + b)[1..] == a[1..] + b;
      DigitRunOfNumeral(a[1..], b);
    } else {
      assert a + b == b;
    }
  }

  /** A run of `m` digits at the start of `s` is part of its digit run. */
  lemma {:induction false} DigitRunAtLeast(s: string, m: nat)
    requires m <= |s| && forall i :: 0 <= i < m ==> IsDigit(s[i])
    ensures DigitRun(s) >= m
  {
    if m > 0 {
      DigitRunAtLeast(s[1..], m - 1);
    }
  }

  /** The digit run that starts `s`, when not empty, is a numeral. */
  lemma NumeralPrefix(s: string)
    ensures DigitRun(s) > 0 ==> IsNumeral(s[..DigitRun(s)])
  {
  }

  // ---------------------------------------------------------------------
  // str.strip()

  /** Number of leading whitespace characters. */
  function LeadingSpace(s: string): (n: nat)
    ensures n <= |s|
    ensures AllSpace(s[..n])
    ensures n == |s| || !IsSpace(s[n])
  {
    SpaceRun(s)
  }

  /** Number of trailing whitespace characters. */
  function TrailingSpace(s: string): (n: nat)
    ensures n <= |s|
    ensures forall i :: |s| - n <= i < |s| ==> IsSpace(s[i])
    ensures n == |s| || !IsSpace(s[|s| - n - 1])
  {
    if s != [] && IsSpace(s[|s| - 1]) then 1 + TrailingSpace(s[..|s| - 1]) else 0
  }

  /** Python's `str.strip()` with no argument: the longest middle part of
      `s` that neither starts nor ends with whitespace, what is cut off on
      either side being whitespace only. */
  function Strip(s: string): (r: string)
    ensures LeadingSpace(s) + |r| <= |s|
    ensures r == s[LeadingSpace(s)..LeadingSpace(s) + |r|]
    ensures forall i :: 0 <= i < LeadingSpace(s) ==> IsSpace(s[i])
    ensures forall i :: LeadingSpace(s) + |r| <= i < |s| ==> IsSpace(s[i])
    ensures r == [] || (!IsSpace(r[0]) && !IsSpace(r[|r| - 1]))
  {
    var lo := LeadingSpace(s);
    var rest := s[lo..];
    var n := TrailingSpace(rest);
    rest[..|rest| - n]
  }

  /** When `s` starts with a non-space character, stripping keeps every
      character up to and including any later non-space one. */
  lemma StripKeepsPrefix(s: string, k: nat)
    requires k < |s|
    requires !IsSpace(s[0]) && !IsSpace(s[k])
    ensures |Strip(s)| > k && Strip(s)[..k + 1] == s[..k + 1]
  {
    assert LeadingSpace(s) == 0;
  }

  // ---------------------------------------------------------------------
  // str.split(sep) and sep.join(parts) for a one-character separator

  /** The part of `s` before its first `sep`; all of `s` when there is none. */
  function FirstField(s: string, sep: char): (r: string)
    ensures |r| <= |s| && r == s[..|r|]
    ensures sep !in r
    ensures |r| < |s| ==> s[|r|] == sep
  {
    if s == [] || s[0] == sep then [] else [s[0]] + FirstField(s[1..], sep)
  }

  /** Python's `s.split(sep)`: the fields between separators, always at least
      one, none containing `sep`. */
  function Split(s: string, sep: char): (parts: seq<string>)
    ensures |parts| >= 1
    ensures parts[0] == FirstField(s, sep)
    ensures forall i :: 0 <= i < |parts| ==> sep !in parts[i]
    decreases |s|
  {
    var f := FirstField(s, sep);
    if |f| == |s| then [s] else [f] + Split(s[|f| + 1..], sep)
  }

  /** Python's `sep.join(parts)`. */
  function Join(parts: seq<string>, sep: char): string
  {
    if |parts| == 0 then ""
    else if |parts| == 1 then parts[0]
    else parts[0] + [sep] + Join(parts[1..], sep)
  }

  /** Splitting a joined list gives the list back when no part contains the
      separator. */
  lemma {:induction false} SplitJoin(parts: seq<string>, sep: char)
    requires |parts| >= 1
    requires forall i :: 0 <= i < |parts| ==> sep !in parts[i]
    ensures Split(Join(parts, sep), sep) == parts
  {
    if |parts| == 1 {
      SplitOfField(parts[0], sep);
    } else {
      var rest := Join(parts[1..], sep);
      SplitJoin(parts[1..], sep);
      SplitAfterField(parts[0], sep, rest);
      assert parts == [parts[0]] + parts[1..];
    }
  }

  /** A string without the separator splits into itself. */
  lemma SplitOfField(a: string, sep: char)
    requires sep !in a
    ensures Split(a, sep) == [a]
  {
    FirstFieldOf(a, sep, "");
    assert a + "" == a;
  }

  /** A leading field and separator split off as the first part. */
  lemma SplitAfterField(a: string, sep: char, b: string)
    requires sep !in a
    ensures Split(a + [sep] + b, sep) == [a] + Split(b, sep)
  {
    var s := a + [sep] + b;
    assert s == a + ([sep] + b);
    FirstFieldOf(a, sep, [sep] + b);
    assert s[|a| + 1..] == b;
  }

  /** Joining the fields of a split gives the string back. */
  lemma {:induction false} JoinSplit(s: string, sep: char)
    ensures Join(Split(s, sep), sep) == s
    decreases |s|
  {
    var f := FirstField(s, sep);
    if |f| < |s| {
      var tail := s[|f| + 1..];
      var rest := Split(tail, sep);
      var parts := Split(s, sep);
      assert parts == [f] + rest;
      assert |parts| >= 2 && parts[0] == f && parts[1..] == rest;
      assert Join(parts, sep) == f + [sep] + Join(rest, sep);
      JoinSplit(tail, sep);
      assert s == s[..|f|] + [s[|f|]] + tail;
    }
  }

  /** The first field of `a + b` is `a` when `a` has no separator and `b` is
      empty or starts with one. */
  lemma {:induction false} FirstFieldOf(a: string, sep: char, b: string)
    requires sep !in a
    requires b == [] || b[0] == sep
    ensures FirstField(a + b, sep) == a
  {
    if a == [] {
      assert a + b == b;
    } else {
      assert (a + b)[1..] == a[1..] + b;
      FirstFieldOf(a[1..], sep, b);
      assert a == [a[0]] + a[1..];
    }
  }

  /** Joining one more part appends a separator and the part. */
  lemma {:induction false} JoinAppend(parts: seq<string>, x: string, sep: char)
    requires |parts| >= 1
    ensures Join(parts + [x], sep) == Join(parts, sep) + [sep] + x
  {
    var ps := parts + [x];
    if |parts| == 1 {
      assert ps[1..] == [x];
    } else {
      assert ps[1..] == parts[1..] + [x];
      JoinAppend(parts[1..], x, sep);
    }
  }

  // ---------------------------------------------------------------------
  // Iterating over the lines of a text file

  /** The lines of a file's text, as iterating over the open file yields
      them, without their '\n' terminators: the text cut at every '\n',
      less the empty piece after a final terminator. */
  function Lines(content: string): (lines: seq<string>)
    ensures forall i :: 0 <= i < |lines| ==> '\n' !in lines[i]
    ensures content == [] <==> lines == []
  {
    var parts := Split(content, '\n');
    if parts[|parts| - 1] == [] then
      if |parts| == 1 then
        assert content == [] by { JoinSplit(content, '\n'); }
        []
      else
        parts[..|parts| - 1]
    else parts
  }

  /** The text of a file written one '\n'-terminated line at a time. */
  function Written(lines: seq<string>): (text: string)
    ensures lines != [] ==> |text| > 0 && text[|text| - 1] == '\n'
  {
    if lines == [] then [] else Written(lines[..|lines| - 1]) + lines[|lines| - 1] + "\n"
  }

  /** Writing terminated lines is the same as joining them with a final
      empty line. */
  lemma {:induction false} WrittenIsJoin(lines: seq<string>)
    ensures Written(lines) == Join(lines + [""], '\n')
  {
    if lines != [] {
      var init := lines[..|lines| - 1];
      var last := lines[|lines| - 1];
      assert lines == init + [last];
      assert Written(lines) == Written(init) + last + "\n";
      if init == [] {
        assert lines + [""] == [last, ""];
        assert Join([last, ""], '\n') == last + ['\n'] + Join([""], '\n');
      } else {
        WrittenIsJoin(init);
        JoinAppend(init, "", '\n');
        JoinAppend(init, last, '\n');
        JoinAppend(lines, "", '\n');
        var j := Join(init, '\n');
        assert Written(init) == j + ['\n'] + "";
        assert Join(lines, '\n') == j + ['\n'] + last;
        assert Join(lines + [""], '\n') == Join(lines, '\n') + ['\n'] + "";
      }
    }
  }

  /** Reading back a file written line by line gives those lines, provided
      none of them holds a '\n'. */
  lemma LinesOfWritten(lines: seq<string>)
    requires forall i :: 0 <= i < |lines| ==> '\n' !in lines[i]
    ensures Lines(Written(lines)) == lines
  {
    WrittenIsJoin(lines);
    var ps := lines + [""];
    assert forall i :: 0 <= i < |ps| ==> '\n' !in ps[i] by {
      forall i | 0 <= i < |ps|
        ensures '\n' !in ps[i]
      {
        if i < |lines| {
          assert ps[i] == lines[i];
        }
      }
    }
    SplitJoin(ps, '\n');
    assert ps[..|ps| - 1] == lines;
  }

  /** Writing one more line in front. */
  lemma {:induction false} WrittenCons(x: string, lines: seq<string>)
    ensures Written([x] + lines) == x + "\n" + Written(lines)
    decreases |lines|
  {
    var all := [x] + lines;
    if lines != [] {
      var init := lines[..|lines| - 1];
      WrittenCons(x, init);
      assert all[..|all| - 1] == [x] + init;
      assert all[|all| - 1] == lines[|lines| - 1];
    } else {
      assert all[..0] == [];
    }
  }

  /** Writing two runs of lines one after the other. */
  lemma {:induction false} WrittenConcat(a: seq<string>, b: seq<string>)
    ensures Written(a + b) == Written(a) + Written(b)
    decreases |b|
  {
    if b == [] {
      assert a + b == a;
    } else {
      var init, last := b[..|b| - 1], b[|b| - 1];
      var ab := a + b;
      assert ab[..|ab| - 1] == a + init && ab[|ab| - 1] == last;
      assert Written(ab) == Written(a + init) + last + "\n";
      WrittenConcat(a, init);
      assert Written(b) == Written(init) + last + "\n";
    }
  }

  /** A character that is neither the separator nor in any part is not in
      the joined text. */
  lemma {:induction false} JoinLacks(parts: seq<string>, sep: char, c: char)
    requires c != sep && forall i :: 0 <= i < |parts| ==> c !in parts[i]
    ensures c !in Join(parts, sep)
    decreases |parts|
  {
    if |parts| > 1 {
      JoinLacks(parts[1..], sep, c);
      assert Join(parts, sep) == parts[0] + [sep] + Join(parts[1..], sep);
    }
  }

  /** Text that is empty or ends in a line terminator. */
  predicate Terminated(content: string) {
    content == [] || content[|content| - 1] == '\n'
  }

  /** A text ending in the separator splits with an empty last part. */
  lemma {:induction false} SplitEndsEmpty(s: string, sep: char)
    requires s != [] && s[|s| - 1] == sep
    ensures Split(s, sep)[|Split(s, sep)| - 1] == []
    decreases |s|
  {
    var f := FirstField(s, sep);
    assert s[|s| - 1] !in f;
    var tail := s[|f| + 1..];
    assert Split(s, sep) == [f] + Split(tail, sep);
    if tail != [] {
      assert tail[|tail| - 1] == s[|s| - 1];
      SplitEndsEmpty(tail, sep);
    }
  }

  /** A terminated text is the text its lines write back. */
  lemma WrittenLines(content: string)
    requires Terminated(content)
    ensures Written(Lines(content)) == content
  {
    if content != [] {
      var ps := Split(content, '\n');
      SplitEndsEmpty(content, '\n');
      JoinSplit(content, '\n');
      var lines := Lines(content);
      assert ps == lines + [""];
      WrittenIsJoin(lines);
    }
  }

  /** Appending one terminated line to a terminated text adds that line. */
  lemma LinesAppendLine(content: string, line: string)
    requires Terminated(content) && '\n' !in line
    ensures Lines(content + line + "\n") == Lines(content) + [line]
  {
    var lines := Lines(content);
    var more := lines + [line];
    WrittenLines(content);
    assert more[..|more| - 1] == lines;
    assert Written(more) == content + line + "\n";
    assert forall i :: 0 <= i < |more| ==> '\n' !in more[i] by {
      forall i | 0 <= i < |more|
        ensures '\n' !in more[i]
      {
        if i < |lines| {
          assert more[i] == lines[i];
        }
      }
    }
    LinesOfWritten(more);
  }

  // ---------------------------------------------------------------------
  // re.IGNORECASE on ASCII keywords, str.replace on one character

  function LowerAscii(c: char): char {
    if 'A' <= c <= 'Z' then (c as int + 32) as char else c
  }

  /** The lower-case ASCII keyword `kw` occurs in `s` at `j`, compared
      without regard to ASCII case. */
  predicate OccursIgnoreCase(s: string, j: nat, kw: string)
    decreases kw
  {
    kw == [] || (j < |s| && LowerAscii(s[j]) == kw[0] && OccursIgnoreCase(s, j + 1, kw[1..]))
  }

  /** Python's `s.replace(old, new)` for single characters. */
  function ReplaceChar(s: string, from: char, to: char): (r: string)
    ensures |r| == |s|
    ensures from != to ==> from !in r
    ensures forall i :: 0 <= i < |s| && s[i] != from ==> r[i] == s[i]
    ensures forall i :: 0 <= i < |s| && s[i] == from ==> r[i] == to
  {
    seq(|s|, i requires 0 <= i < |s| => if s[i] == from then to else s[i])
  }
}
