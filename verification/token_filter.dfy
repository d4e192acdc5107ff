/** The value filter of the current scraper: `re.findall` over the pattern
    `(\d+\.\d+(K|M|B)\+?|\d+(K|M|B)\+?|\d+\.\d+|\d+\b|\b[A-Za-z]{3} \d{1,2}, \d{4}\b)`
    with the whole matches joined by single spaces.

    The scanner works on suffixes of the text. Its flag `afterWord` says
    whether the character just before the suffix is a word character, which
    is all the `\b` at the start of the date alternative looks at. */
module TokenFilter {
  import opened Wrappers
  import opened Text

  /** What one match of the pattern denotes: a count with optional fraction,
      K/M/B scale and "at least" plus, or a "Mon D, YYYY" date. */
  datatype Token =
    | Quantity(whole: string, fraction: Option<string>, scale: Option<char>, plus: bool)
    | Date(month: string, day: string, year: string)

  predicate IsScale(c: char) {
    c == 'K' || c == 'M' || c == 'B'
  }

  /** The tokens the pattern can produce: the pattern only keeps a '+' that
      follows a K/M/B scale. */
  predicate WellFormed(t: Token) {
    match t
    case Quantity(w, f, sc, plus) =>
      && IsNumeral(w)
      && (f.Some? ==> IsNumeral(f.value))
      && (sc.Some? ==> IsScale(sc.value))
      && (plus ==> sc.Some?)
    case Date(m, d, y) =>
      && |m| == 3 && IsAsciiLetter(m[0]) && IsAsciiLetter(m[1]) && IsAsciiLetter(m[2])
      && 1 <= |d| <= 2 && IsNumeral(d)
      && |y| == 4 && IsNumeral(y)
  }

  /** The text a token is written as. */
  function Render(t: Token): string {
    match t
    case Quantity(w, f, sc, plus) =>
      w + (if f.Some? then "." + f.value else "")
        + (if sc.Some? then [sc.value] else "")
        + (if plus then "+" else "")
    case Date(m, d, y) => m + " " + d + ", " + y
  }

  /** A match at the start of the text: the token and how many characters
      it spans. */
  datatype Match = Match(token: Token, len: nat)

  /** A match is sound for `s` when it spans a non-empty prefix of `s` that
      is exactly the rendering of a well-formed token. */
  predicate SoundFor(m: Match, s: string) {
    0 < m.len <= |s| && WellFormed(m.token) && Render(m.token) == s[..m.len]
  }

  /** `(K|M|B)\+?` at position `at`, completing a count whose digits have
      already been read. */
  function ScaledTail(s: string, whole: string, fraction: Option<string>, at: nat): (m: Option<Match>)
    requires at <= |s|
    ensures m.Some? ==> m.value.len > at && m.value.len <= |s|
    ensures m.Some? ==> m.value.token == Quantity(whole, fraction, Some(s[at]), m.value.len == at + 2)
    ensures m.Some? ==> IsScale(s[at]) && (m.value.len == at + 2 <==> (at + 1 < |s| && s[at + 1] == '+'))
    ensures m.None? <==> (at == |s| || !IsScale(s[at]))
  {
    if at < |s| && IsScale(s[at]) then
      var plus := at + 1 < |s| && s[at + 1] == '+';
      Some(Match(Quantity(whole, fraction, Some(s[at]), plus), if plus then at + 2 else at + 1))
    else None
  }

  /** `\d+\.\d+` at the start of `s`: the lengths of the whole part and of
      the fraction, each a maximal digit run. */
  function PointNumber(s: string): (r: Option<(nat, nat)>)
    ensures r.Some? ==>
              && 0 < r.value.0 && 0 < r.value.1 && r.value.0 + 1 + r.value.1 <= |s|
              && r.value.0 == DigitRun(s) && s[r.value.0] == '.'
              && r.value.1 == DigitRun(s[r.value.0 + 1..])
  {
    var n := DigitRun(s);
    if 0 < n < |s| && s[n] == '.' then
      var k := DigitRun(s[n + 1..]);
      if k > 0 then Some((n, k)) else None
    else None
  }

  /** First alternative, `\d+\.\d+(K|M|B)\+?`. */
  function ScaledDecimal(s: string): (m: Option<Match>)
    ensures m.Some? ==> 0 < m.value.len <= |s| && m.value.token.Quantity?
  {
    match PointNumber(s)
    case None => None
    case Some((n, k)) => ScaledTail(s, s[..n], Some(s[n + 1..n + 1 + k]), n + 1 + k)
  }

  /** Second alternative, `\d+(K|M|B)\+?`. */
  function ScaledInteger(s: string): (m: Option<Match>)
    ensures m.Some? ==> 0 < m.value.len <= |s| && m.value.token.Quantity?
  {
    var n := DigitRun(s);
    if n > 0 then ScaledTail(s, s[..n], None, n) else None
  }

  /** Third alternative, `\d+\.\d+`. */
  function Decimal(s: string): (m: Option<Match>)
    ensures m.Some? ==> 0 < m.value.len <= |s| && m.value.token.Quantity?
  {
    match PointNumber(s)
    case None => None
    case Some((n, k)) => Some(Match(Quantity(s[..n], Some(s[n + 1..n + 1 + k]), None, false), n + 1 + k))
  }

  /** Fourth alternative, `\d+\b`: the digit run must not be followed by a
      word character. Backtracking to a shorter run cannot help, since a
      digit would follow it. */
  function Integer(s: string): (m: Option<Match>)
    ensures m.Some? ==> 0 < m.value.len <= |s| && m.value.token.Quantity?
    ensures m.Some? ==> m.value.len == |s| || !IsWordChar(s[m.value.len])
  {
    var n := DigitRun(s);
    if n > 0 && (n == |s| || !IsWordChar(s[n])) then Some(Match(Quantity(s[..n], None, None, false), n))
    else None
  }

  /** Fifth alternative, `\b[A-Za-z]{3} \d{1,2}, \d{4}\b`. The day takes two
      digits when two are there; backtracking to one cannot help, since the
      comma would then have to be a digit. */
  function DateAt(afterWord: bool, s: string): (m: Option<Match>)
    ensures m.Some? ==> 0 < m.value.len <= |s| && m.value.token.Date? && !afterWord
    ensures m.Some? ==> m.value.len == |s| || !IsWordChar(s[m.value.len])
  {
    if !afterWord && 5 <= |s| && IsAsciiLetter(s[0]) && IsAsciiLetter(s[1]) && IsAsciiLetter(s[2])
       && s[3] == ' ' && IsDigit(s[4]) then
      var d := if 5 < |s| && IsDigit(s[5]) then 2 else 1;
      var e := 10 + d;
      if e <= |s| && s[4 + d] == ',' && s[5 + d] == ' ' && IsNumeral(s[6 + d..e])
         && (e == |s| || !IsWordChar(s[e])) then
        Some(Match(Date(s[..3], s[4..4 + d], s[6 + d..e]), e))
      else None
    else None
  }

  /** The pattern at the start of `s`: the first alternative that matches. */
  function MatchHere(afterWord: bool, s: string): (m: Option<Match>)
    ensures m.Some? ==> 0 < m.value.len <= |s|
  {
    var a1 := ScaledDecimal(s);
    if a1.Some? then a1 else
    var a2 := ScaledInteger(s);
    if a2.Some? then a2 else
    var a3 := Decimal(s);
    if a3.Some? then a3 else
    var a4 := Integer(s);
    if a4.Some? then a4 else
    DateAt(afterWord, s)
  }

  // Soundness of the alternatives: each match spans a prefix that is
  // exactly the rendering of the well-formed token it reports.

  /** A scale-and-plus tail after a sound count gives a sound match. */
  lemma ScaledTailSound(s: string, whole: string, fraction: Option<string>, at: nat)
    requires at <= |s| && IsNumeral(whole) && (fraction.Some? ==> IsNumeral(fraction.value))
    requires s[..at] == whole + (if fraction.Some? then "." + fraction.value else "")
    ensures ScaledTail(s, whole, fraction, at).Some? ==> SoundFor(ScaledTail(s, whole, fraction, at).value, s)
  {
    var m := ScaledTail(s, whole, fraction, at);
    if m.Some? {
      var len := m.value.len;
      var ps := if len == at + 2 then "+" else "";
      assert s[at..len] == [s[at]] + ps;
      assert s[..len] == s[..at] + s[at..len];
    }
  }

  lemma ScaledDecimalSound(s: string)
    ensures ScaledDecimal(s).Some? ==> SoundFor(ScaledDecimal(s).value, s)
  {
    match PointNumber(s)
    case None =>
    case Some((n, k)) =>
      var w := s[..n];
      var f := s[n + 1..n + 1 + k];
      assert IsNumeral(w) && IsNumeral(f) by {
        NumeralPrefix(s);
        NumeralPrefix(s[n + 1..]);
        assert f == s[n + 1..][..k];
      }
      assert s[..n + 1 + k] == w + ("." + f) by {
        assert s[..n + 1 + k] == w + s[n..n + 1] + f;
      }
      assert ScaledDecimal(s) == ScaledTail(s, w, Some(f), n + 1 + k);
      ScaledTailSound(s, w, Some(f), n + 1 + k);
  }

  lemma ScaledIntegerSound(s: string)
    ensures ScaledInteger(s).Some? ==> SoundFor(ScaledInteger(s).value, s)
  {
    var n := DigitRun(s);
    if n > 0 {
      NumeralPrefix(s);
      assert s[..n] == s[..n] + "";
      ScaledTailSound(s, s[..n], None, n);
    }
  }

  lemma DecimalSound(s: string)
    ensures Decimal(s).Some? ==> SoundFor(Decimal(s).value, s)
  {
    match PointNumber(s)
    case None =>
    case Some((n, k)) =>
      assert s[..n + 1 + k] == s[..n] + "." + s[n + 1..n + 1 + k];
  }

  lemma IntegerSound(s: string)
    ensures Integer(s).Some? ==> SoundFor(Integer(s).value, s)
  {
    var n := DigitRun(s);
    if Integer(s).Some? {
      assert s[..n] == s[..n] + "" + "" + "";
    }
  }

  lemma DateSound(afterWord: bool, s: string)
    ensures DateAt(afterWord, s).Some? ==> SoundFor(DateAt(afterWord, s).value, s)
  {
    if DateAt(afterWord, s).Some? {
      var d := if 5 < |s| && IsDigit(s[5]) then 2 else 1;
      var e := 10 + d;
      assert s[..e] == s[..3] + s[3..4] + s[4..4 + d] + s[4 + d..6 + d] + s[6 + d..e];
      assert s[3..4] == " ";
      assert s[4 + d..6 + d] == ", ";
    }
  }

  /** Whatever alternative matches, the match is sound. */
  lemma MatchHereSound(afterWord: bool, s: string)
    ensures MatchHere(afterWord, s).Some? ==> SoundFor(MatchHere(afterWord, s).value, s)
  {
    ScaledDecimalSound(s);
    ScaledIntegerSound(s);
    DecimalSound(s);
    IntegerSound(s);
    DateSound(afterWord, s);
  }

  /** `re.findall`: scan left to right, take the match at the current
      position and continue after it, or move on one character. Every
      result is a well-formed token, and there are no more results than
      characters. */
  function FindAll(afterWord: bool, s: string): (found: seq<Token>)
    ensures forall i :: 0 <= i < |found| ==> WellFormed(found[i])
    ensures |found| <= |s|
    decreases |s|, 1
  {
    if s == [] then [] else ScanFrom(afterWord, s, MatchHere(afterWord, s))
  }

  /** One step of the scan, given what the pattern matches at the current
      position. */
  function ScanFrom(afterWord: bool, s: string, here: Option<Match>): (found: seq<Token>)
    requires s != [] && here == MatchHere(afterWord, s)
    ensures forall i :: 0 <= i < |found| ==> WellFormed(found[i])
    ensures |found| <= |s|
    decreases |s|, 0
  {
    match here
    case Some(m) =>
      MatchHereSound(afterWord, s);
      [m.token] + FindAll(IsWordChar(s[m.len - 1]), s[m.len..])
    case None => FindAll(IsWordChar(s[0]), s[1..])
  }

  /** A match at the current position is reported, and the scan resumes
      right after it. */
  lemma ScanStep(afterWord: bool, s: string, t: Token, n: nat)
    requires 0 < n <= |s| && MatchHere(afterWord, s) == Some(Match(t, n))
    ensures FindAll(afterWord, s) == [t] + FindAll(IsWordChar(s[n - 1]), s[n..])
  {
  }

  /** Without a match at the current position, the scan moves on one
      character. */
  lemma ScanSkip(afterWord: bool, s: string)
    requires s != [] && MatchHere(afterWord, s).None?
    ensures FindAll(afterWord, s) == FindAll(IsWordChar(s[0]), s[1..])
  {
  }

  function Renders(ts: seq<Token>): (texts: seq<string>)
    ensures |texts| == |ts|
    ensures forall i :: 0 <= i < |ts| ==> texts[i] == Render(ts[i])
  {
    if ts == [] then [] else [Render(ts[0])] + Renders(ts[1..])
  }

  /** The filtered value of a locator's text: every match, as matched,
      joined by single spaces. The empty string means "no match". */
  function Filter(text: string): string {
    Join(Renders(FindAll(false, text)), ' ')
  }

  // ---------------------------------------------------------------------
  // Properties

  /** Every rendering carries a digit, so a filtered value is never blank
      and never equal to a sentinel without digits. */
  lemma RenderHasDigit(t: Token)
    requires WellFormed(t)
    ensures |Render(t)| > 0 && HasDigit(Render(t))
  {
    match t
    case Quantity(w, f, sc, plus) =>
      assert Render(t)[0] == w[0];
    case Date(m, d, y) =>
      assert Render(t)[4] == d[0];
  }

  /** The filter is empty exactly when there is nothing to join. */
  lemma {:induction false} FilterEmptyIff(text: string)
    ensures Filter(text) == "" <==> FindAll(false, text) == []
  {
    var ts := FindAll(false, text);
    if ts != [] {
      RenderHasDigit(ts[0]);
      JoinStartsWithFirst(Renders(ts));
    }
  }

  lemma JoinStartsWithFirst(parts: seq<string>)
    requires |parts| > 0
    ensures |Join(parts, ' ')| >= |parts[0]|
    ensures Join(parts, ' ')[..|parts[0]|] == parts[0]
  {
  }

  /** Parsing a rendered token gives it back: the pattern reads a
      well-formed token as exactly that token, byte for byte, when the token
      is followed by the end of the text or a space (and, for a date, is
      not preceded by a word character). */
  lemma MatchRendered(afterWord: bool, t: Token, rest: string)
    requires WellFormed(t)
    requires t.Date? ==> !afterWord
    requires rest == [] || rest[0] == ' '
    ensures MatchHere(afterWord, Render(t) + rest) == Some(Match(t, |Render(t)|))
  {
    match t
    case Quantity(w, f, sc, plus) =>
      if f.Some? && sc.Some? {
        MatchScaledDecimal(afterWord, w, f.value, sc.value, plus, rest);
      } else if f.Some? {
        MatchDecimal(afterWord, w, f.value, rest);
      } else if sc.Some? {
        MatchScaledInteger(afterWord, w, sc.value, plus, rest);
      } else {
        MatchInteger(afterWord, w, rest);
      }
    case Date(mo, d, y) =>
      MatchDate(mo, d, y, rest);
  }

  /** How the scanner reads the digits, point and digits at the start of
      `w + ("." + f + tail)`. */
  lemma PointNumberOf(w: string, f: string, tail: string)
    requires IsNumeral(w) && IsNumeral(f)
    requires tail == [] || !IsDigit(tail[0])
    ensures var s := w + ("." + f + tail);
            && PointNumber(s) == Some((|w|, |f|))
            && s[..|w|] == w && s[|w| + 1..|w| + 1 + |f|] == f && s[|w| + 1 + |f|..] == tail
  {
    var s := w + ("." + f + tail);
    var u := s[|w| + 1..];
    assert DigitRun(s) == |w| && s[|w|] == '.' && s[..|w|] == w by {
      DigitRunOfNumeral(w, "." + f + tail);
    }
    assert u == f + tail;
    assert DigitRun(u) == |f| by {
      DigitRunOfNumeral(f, tail);
    }
    assert s[|w| + 1..|w| + 1 + |f|] == u[..|f|];
    assert s[|w| + 1 + |f|..] == u[|f|..];
  }

  /** The scale-and-plus tail reads back the scale letter and the plus. */
  lemma ScaledTailReads(s: string, whole: string, fraction: Option<string>, at: nat,
                        sc: char, plus: bool, rest: string)
    requires IsScale(sc) && (rest == [] || rest[0] == ' ')
    requires at <= |s| && s[at..] == [sc] + (if plus then "+" else "") + rest
    ensures ScaledTail(s, whole, fraction, at)
            == Some(Match(Quantity(whole, fraction, Some(sc), plus), if plus then at + 2 else at + 1))
  {
    assert s[at] == s[at..][0];
    if at + 1 < |s| {
      assert s[at + 1] == s[at..][1];
    }
  }

  /** Digits, point, digits and a scale letter: the first alternative
      wins. */
  lemma ScaledDecimalWins(afterWord: bool, s: string, w: string, f: string, sc: char, plus: bool, rest: string)
    requires PointNumber(s) == Some((|w|, |f|)) && s[..|w|] == w && s[|w| + 1..|w| + 1 + |f|] == f
    requires IsScale(sc) && (rest == [] || rest[0] == ' ')
    requires s[|w| + 1 + |f|..] == [sc] + (if plus then "+" else "") + rest
    ensures MatchHere(afterWord, s)
            == Some(Match(Quantity(w, Some(f), Some(sc), plus), |w| + |f| + (if plus then 3 else 2)))
  {
    ScaledTailReads(s, w, Some(f), |w| + 1 + |f|, sc, plus, rest);
  }

  /** Digits, point and digits not followed by a scale letter: the third
      alternative wins. */
  lemma DecimalWins(afterWord: bool, s: string, w: string, f: string, tail: string)
    requires PointNumber(s) == Some((|w|, |f|)) && s[..|w|] == w && s[|w| + 1..|w| + 1 + |f|] == f
    requires s[|w| + 1 + |f|..] == tail && (tail == [] || !IsScale(tail[0]))
    ensures MatchHere(afterWord, s) == Some(Match(Quantity(w, Some(f), None, false), |w| + 1 + |f|))
  {
    if tail != [] {
      assert s[|w| + 1 + |f|] == tail[0];
    }
    assert ScaledDecimal(s).None?;
    assert ScaledInteger(s).None?;
  }

  lemma MatchScaledDecimal(afterWord: bool, w: string, f: string, sc: char, plus: bool, rest: string)
    requires IsNumeral(w) && IsNumeral(f) && IsScale(sc)
    requires rest == [] || rest[0] == ' '
    ensures var t := Quantity(w, Some(f), Some(sc), plus);
            MatchHere(afterWord, Render(t) + rest) == Some(Match(t, |Render(t)|))
  {
    var t := Quantity(w, Some(f), Some(sc), plus);
    var ps := if plus then "+" else "";
    var tail := [sc] + ps + rest;
    var s := w + ("." + f + tail);
    PointNumberOf(w, f, tail);
    ScaledDecimalWins(afterWord, s, w, f, sc, plus, rest);
    ScaledDecimalText(w, f, sc, plus, rest);
  }

  lemma ScaledDecimalText(w: string, f: string, sc: char, plus: bool, rest: string)
    ensures var r := Render(Quantity(w, Some(f), Some(sc), plus));
            && r + rest == w + ("." + f + ([sc] + (if plus then "+" else "") + rest))
            && |r| == |w| + |f| + (if plus then 3 else 2)
  {
  }

  lemma MatchDecimal(afterWord: bool, w: string, f: string, rest: string)
    requires IsNumeral(w) && IsNumeral(f)
    requires rest == [] || rest[0] == ' '
    ensures var t := Quantity(w, Some(f), None, false);
            MatchHere(afterWord, Render(t) + rest) == Some(Match(t, |Render(t)|))
  {
    var t := Quantity(w, Some(f), None, false);
    var s := w + ("." + f + rest);
    PointNumberOf(w, f, rest);
    DecimalWins(afterWord, s, w, f, rest);
    DecimalText(w, f, rest);
  }

  lemma DecimalText(w: string, f: string, rest: string)
    ensures var r := Render(Quantity(w, Some(f), None, false));
            r + rest == w + ("." + f + rest) && |r| == |w| + |f| + 1
  {
  }

  /** Digits and a scale letter, no point: the second alternative wins. */
  lemma ScaledIntegerWins(afterWord: bool, s: string, w: string, sc: char, plus: bool, rest: string)
    requires 0 < |w| == DigitRun(s) && s[..|w|] == w
    requires IsScale(sc) && (rest == [] || rest[0] == ' ')
    requires s[|w|..] == [sc] + (if plus then "+" else "") + rest
    ensures MatchHere(afterWord, s)
            == Some(Match(Quantity(w, None, Some(sc), plus), |w| + (if plus then 2 else 1)))
  {
    assert s[|w|] == sc;
    assert PointNumber(s).None?;
    ScaledTailReads(s, w, None, |w|, sc, plus, rest);
  }

  lemma MatchScaledInteger(afterWord: bool, w: string, sc: char, plus: bool, rest: string)
    requires IsNumeral(w) && IsScale(sc)
    requires rest == [] || rest[0] == ' '
    ensures var t := Quantity(w, None, Some(sc), plus);
            MatchHere(afterWord, Render(t) + rest) == Some(Match(t, |Render(t)|))
  {
    var tail := [sc] + (if plus then "+" else "") + rest;
    var s := w + tail;
    DigitRunOfNumeral(w, tail);
    assert s[..|w|] == w && s[|w|..] == tail;
    ScaledIntegerWins(afterWord, s, w, sc, plus, rest);
    ScaledIntegerText(w, sc, plus, rest);
  }

  lemma ScaledIntegerText(w: string, sc: char, plus: bool, rest: string)
    ensures var r := Render(Quantity(w, None, Some(sc), plus));
            && r + rest == w + ([sc] + (if plus then "+" else "") + rest)
            && |r| == |w| + (if plus then 2 else 1)
  {
  }

  lemma MatchInteger(afterWord: bool, w: string, rest: string)
    requires IsNumeral(w)
    requires rest == [] || rest[0] == ' '
    ensures var t := Quantity(w, None, None, false);
            MatchHere(afterWord, Render(t) + rest) == Some(Match(t, |Render(t)|))
  {
    var t := Quantity(w, None, None, false);
    var s := Render(t) + rest;
    assert Render(t) == w;
    DigitRunOfNumeral(w, rest);
    var n := |w|;
    assert s[..n] == w;
    assert n == |s| || s[n] == ' ';
    assert ScaledDecimal(s).None?;
    assert ScaledInteger(s).None?;
    assert Decimal(s).None?;
  }

  lemma MatchDate(mo: string, d: string, y: string, rest: string)
    requires WellFormed(Date(mo, d, y))
    requires rest == [] || rest[0] == ' '
    ensures var t := Date(mo, d, y);
            MatchHere(false, Render(t) + rest) == Some(Match(t, |Render(t)|))
  {
    var t := Date(mo, d, y);
    var s := Render(t) + rest;
    assert s[0] == mo[0] && s[1] == mo[1] && s[2] == mo[2];
    assert DigitRun(s) == 0;
    assert s[3] == ' ' && s[4] == d[0];
    if |d| == 2 {
      assert s[5] == d[1];
    } else {
      assert s[5] == ',';
    }
    var e := 10 + |d|;
    assert s[4 + |d|] == ',' && s[5 + |d|] == ' ';
    assert s[6 + |d|..e] == y;
    assert s[..3] == mo && s[4..4 + |d|] == d;
    assert e == |s| || s[e] == ' ';
  }

  /** A space never starts a match. */
  lemma NoMatchAtSpace(afterWord: bool, s: string)
    requires s != [] && s[0] == ' '
    ensures MatchHere(afterWord, s).None?
  {
  }

  /** Scanning the space-joined renderings of well-formed tokens yields
      those tokens again. */
  lemma {:induction false} FindAllRenders(ts: seq<Token>)
    requires forall i :: 0 <= i < |ts| ==> WellFormed(ts[i])
    ensures FindAll(false, Join(Renders(ts), ' ')) == ts
  {
    if |ts| == 1 {
      FindAllLast(ts[0]);
      assert Join(Renders(ts), ' ') == Render(ts[0]);
    } else if |ts| > 1 {
      FindAllRenders(ts[1..]);
      FindAllCons(ts[0], ts[1..]);
      assert ts == [ts[0]] + ts[1..];
    }
  }

  /** One more token in front scans as one more token in front. */
  lemma FindAllCons(t: Token, us: seq<Token>)
    requires WellFormed(t) && |us| > 0
    requires FindAll(false, Join(Renders(us), ' ')) == us
    ensures FindAll(false, Join(Renders([t] + us), ' ')) == [t] + us
  {
    JoinRenders(t, us);
    FindAllNext(t, Join(Renders(us), ' '));
  }

  /** The space-joined renderings split as the first one, a space and the
      others. */
  lemma JoinRenders(t: Token, us: seq<Token>)
    requires |us| > 0
    ensures Join(Renders([t] + us), ' ') == Render(t) + [' '] + Join(Renders(us), ' ')
  {
    var ts := [t] + us;
    var rs := Renders(ts);
    assert ts[1..] == us;
    assert |rs| >= 2 && rs[0] == Render(t) && rs[1..] == Renders(us);
  }

  /** A rendered token alone scans as that token. */
  lemma FindAllLast(t: Token)
    requires WellFormed(t)
    ensures FindAll(false, Render(t)) == [t]
  {
    var r := Render(t);
    MatchRendered(false, t, "");
    assert r + "" == r;
    ScanStep(false, r, t, |r|);
    assert r[|r|..] == [];
  }

  /** A rendered token followed by a space scans as that token and then
      whatever the text after the space scans as. */
  lemma FindAllNext(t: Token, rest: string)
    requires WellFormed(t)
    ensures FindAll(false, Render(t) + [' '] + rest) == [t] + FindAll(false, rest)
  {
    var r := Render(t);
    var u := [' '] + rest;
    var s := r + u;
    assert r + [' '] + rest == s;
    MatchRendered(false, t, u);
    ScanStep(false, s, t, |r|);
    assert s[|r|..] == u;
    NoMatchAtSpace(IsWordChar(s[|r| - 1]), u);
    ScanSkip(IsWordChar(s[|r| - 1]), u);
    assert u[1..] == rest;
  }

  /** Filtering is idempotent: a filtered value filters to itself, so a
      value such as "1.58K+" or "Jan 1, 2025" comes back unchanged. */
  lemma FilterIdempotent(text: string)
    ensures Filter(Filter(text)) == Filter(text)
  {
    FindAllRenders(FindAll(false, text));
  }

  /** A single well-formed token, on its own, filters to itself. */
  lemma FilterKeepsToken(t: Token)
    requires WellFormed(t)
    ensures Filter(Render(t)) == Render(t)
  {
    FindAllRenders([t]);
    assert Renders([t]) == [Render(t)];
  }

  // ---------------------------------------------------------------------
  // Readings of single locator texts

  /** Scaled counts and dates come back byte for byte, plus sign
      included. */
  lemma FilterKeepsScaledDecimal()
    ensures Filter("1.58K+") == "1.58K+"
  {
    var t := Quantity("1", Some("58"), Some('K'), true);
    assert Render(t) == "1.58K+";
    FilterKeepsToken(t);
  }

  lemma FilterKeepsScaledInteger()
    ensures Filter("100B+") == "100B+"
  {
    var t := Quantity("100", None, Some('B'), true);
    assert Render(t) == "100B+";
    FilterKeepsToken(t);
  }

  lemma FilterKeepsDate()
    ensures Filter("Jan 1, 2025") == "Jan 1, 2025"
  {
    var t := Date("Jan", "1", "2025");
    assert Render(t) == "Jan 1, 2025";
    FilterKeepsToken(t);
  }

  /** A '+' after a bare integer is dropped. */
  lemma FilterDropsBarePlus()
    ensures Filter("100+") == "100"
  {
    var s := "100+";
    assert DigitRun(s) == 3 by {
      DigitRunOfNumeral("100", "+");
      assert s == "100" + "+";
    }
    assert s[..3] == "100";
    assert ScaledDecimal(s).None?;
    assert ScaledInteger(s).None?;
    assert Decimal(s).None?;
    assert Integer(s) == Some(Match(Quantity("100", None, None, false), 3));
    assert MatchHere(false, s) == Some(Match(Quantity("100", None, None, false), 3));
    ScanStep(false, s, Quantity("100", None, None, false), 3);
    assert s[3..] == "+";
    assert MatchHere(true, "+").None?;
    ScanSkip(true, "+");
    assert FindAll(true, s[3..]) == [];
    assert Render(Quantity("100", None, None, false)) == "100";
  }
  /** Nothing starts at a character that is neither a digit nor, outside a
      word, a letter. */
  lemma NoMatchAtNonDigit(afterWord: bool, s: string)
    requires s != [] && !IsDigit(s[0]) && (afterWord || !IsAsciiLetter(s[0]))
    ensures MatchHere(afterWord, s).None?
  {
    assert DigitRun(s) == 0;
  }

  /** Inside a run of letters nothing matches: the date needs a boundary
      before its month, everything else needs a digit. */
  lemma {:induction false} NoMatchInWord(s: string)
    requires forall i :: 0 <= i < |s| ==> IsAsciiLetter(s[i])
    ensures FindAll(true, s) == []
  {
    if s != [] {
      NoMatchAtNonDigit(true, s);
      ScanSkip(true, s);
      NoMatchInWord(s[1..]);
    }
  }

  /** Digits running straight into a word start no match: `\d+\b` needs a
      boundary after the digits, and a letter other than K, M and B is no
      scale. */
  lemma NoMatchBeforeWord(afterWord: bool, s: string, n: nat)
    requires 0 < n == DigitRun(s) && n < |s|
    requires IsAsciiLetter(s[n]) && !IsScale(s[n])
    ensures MatchHere(afterWord, s).None?
  {
    assert s[n] != '.' && IsWordChar(s[n]);
    assert PointNumber(s).None?;
    assert ScaledTail(s, s[..n], None, n).None?;
    assert ScaledInteger(s).None?;
    assert Integer(s).None?;
    assert !IsAsciiLetter(s[0]);
    assert DateAt(afterWord, s).None?;
  }

  /** A number glued to a word yields nothing, wherever the scan enters
      the digits. */
  lemma {:induction false} NoMatchInNumberWord(afterWord: bool, w: string, word: string)
    requires IsNumeral(w)
    requires word != [] && !IsScale(word[0])
    requires forall i :: 0 <= i < |word| ==> IsAsciiLetter(word[i])
    ensures FindAll(afterWord, w + word) == []
    decreases |w|
  {
    var s := w + word;
    DigitRunOfNumeral(w, word);
    assert s[|w|] == word[0];
    NoMatchBeforeWord(afterWord, s, |w|);
    ScanSkip(afterWord, s);
    assert s[1..] == w[1..] + word;
    if |w| == 1 {
      assert s[1..] == word;
      NoMatchInWord(word);
    } else {
      NoMatchInNumberWord(true, w[1..], word);
    }
  }

  /** "3star" has no word boundary after its digit, so nothing matches. */
  lemma FilterIntegerRating()
    ensures Filter("3star") == ""
  {
    assert "3star" == "3" + "star";
    NoMatchInNumberWord(false, "3", "star");
  }
}
