/** The value extractor of the older scraper, `extract_app_info` and the
    `get_app_info_from_html` combinator around it.

    Three `re.search` calls, each case-insensitive, run on the container's
    text after every ',' has become '.':
      rating     `(\d+(\.\d+)?)\s*star`
      reviews    `(\d+[A-Za-z\+]*?)\s*review`
      downloads  `(\d+[A-Za-z\+]*?)\s*download`
    Each yields its first group, or "Not found" (lower-case f) when the
    pattern matches nowhere.

    A pattern is modelled by an anchored matcher (`MatchAt`, the match that
    starts at the first character, as the regex engine's backtracking finds
    it) and one leftmost search shared by all three. */
module LegacyExtractor {
  import opened Wrappers
  import opened Text

  /** The default of every value in this iteration. */
  const NotFound: string := "Not found"

  /** `\s*` followed by the keyword in any ASCII case, starting at `j`.
      The keywords start with a letter, so the greedy `\s*` never has to
      give back whitespace. */
  predicate KeywordAt(s: string, j: nat, kw: string)
    requires j <= |s|
    decreases |s| - j
  {
    if j < |s| && IsSpace(s[j]) then KeywordAt(s, j + 1, kw)
    else OccursIgnoreCase(s, j, kw)
  }

  // ---------------------------------------------------------------------
  // The rating pattern

  /** The text the rating group can capture: digits, optionally followed
      by '.' and more digits. */
  predicate RatingShape(t: string) {
    var n := DigitRun(t);
    0 < n && (n == |t| || (t[n] == '.' && IsNumeral(t[n + 1..])))
  }

  /** How many digits follow a '.' at `n`; none when there is no '.'. */
  function Fraction(s: string, n: nat): (k: nat)
    requires n <= |s|
    ensures k > 0 ==> n < |s| && s[n] == '.' && n + 1 + k <= |s|
  {
    if n < |s| && s[n] == '.' then DigitRun(s[n + 1..]) else 0
  }

  /** `(\d+(\.\d+)?)\s*star` anchored at the start of `s`. The greedy digit
      runs never give anything back (a digit cannot start `\s*star` or
      `\.`), so the engine tries the fraction first and then no fraction.
      What it captures has rating shape, keeps the whole digit run of `s`,
      and is followed by `\s*star`. */
  function RatingAt(s: string): (g: Option<string>)
    ensures g.Some? ==> 0 < |g.value| <= |s| && s[..|g.value|] == g.value
    ensures g.Some? ==> RatingShape(g.value) && DigitRun(g.value) == DigitRun(s)
    ensures g.Some? ==> KeywordAt(s, |g.value|, "star")
  {
    var n := DigitRun(s);
    if n == 0 then None
    else
      var k := Fraction(s, n);
      if k > 0 && KeywordAt(s, n + 1 + k, "star") then
        DecimalShape(s, n, k);
        Some(s[..n + 1 + k])
      else if KeywordAt(s, n, "star") then
        IntegerShape(s, n);
        Some(s[..n])
      else None
  }

  /** The keyword cannot follow at a character that is neither whitespace
      nor its first letter. */
  lemma KeywordNotAt(s: string, j: nat, kw: string)
    requires j < |s| && kw != [] && !IsSpace(s[j]) && LowerAscii(s[j]) != kw[0]
    ensures !KeywordAt(s, j, kw)
  {
    assert s[j + 0] == s[j];
  }

  /** The digit run of `s`, a '.', and the digits after it. */
  lemma DecimalShape(s: string, n: nat, k: nat)
    requires 0 < n == DigitRun(s) && 0 < k == Fraction(s, n)
    ensures RatingShape(s[..n + 1 + k]) && DigitRun(s[..n + 1 + k]) == n
  {
    var t := s[..n + 1 + k];
    assert DigitRun(t) == n by {
      DigitRunOfNumeral(s[..n], s[n..n + 1 + k]);
      assert t == s[..n] + s[n..n + 1 + k];
    }
    assert t[n + 1..] == s[n + 1..][..k];
  }

  /** The digit run of `s` alone. */
  lemma IntegerShape(s: string, n: nat)
    requires 0 < n == DigitRun(s)
    ensures RatingShape(s[..n]) && DigitRun(s[..n]) == n
  {
    DigitRunOfNumeral(s[..n], []);
    assert s[..n] + [] == s[..n];
  }

  /** The anchored rating match is exactly the text of rating shape that
      `s` starts with and that `\s*star` follows: such a text is found, and
      nothing else is. */
  lemma RatingAtExact(s: string, t: string)
    requires RatingShape(t) && |t| <= |s| && s[..|t|] == t
    ensures RatingAt(s) == Some(t) <==> KeywordAt(s, |t|, "star")
  {
    var n := DigitRun(t);
    assert forall i :: 0 <= i < n ==> s[i] == t[i];
    DigitRunAtLeast(s, n);
    if DigitRun(s) > n {
      ExactLongerRun(s, t);
    } else if n == |t| {
      ExactInteger(s, t);
    } else {
      DecimalPrefix(s, t);
      ExactDecimal(s, t, n);
    }
  }

  /** A decimal `t` that `s` starts with, its digit run being that of `s`:
      the keyword follows neither the digit run nor, unless `t` takes every
      digit after the '.', the end of `t`. */
  lemma DecimalPrefix(s: string, t: string)
    requires RatingShape(t) && |t| <= |s| && s[..|t|] == t
    requires DigitRun(t) == DigitRun(s) < |t|
    ensures var n := DigitRun(t);
            && n + 1 < |t| && Fraction(s, n) >= |t| - n - 1 && !KeywordAt(s, n, "star")
            && (Fraction(s, n) > |t| - n - 1 ==> !KeywordAt(s, |t|, "star"))
  {
    var n := DigitRun(t);
    FractionDigits(t);
    assert forall i :: 0 <= i < |t| ==> s[i] == t[i];
    DecimalTail(s, n, |t|);
  }

  /** The fraction of a decimal of rating shape. */
  lemma FractionDigits(t: string)
    requires RatingShape(t) && DigitRun(t) < |t|
    ensures var n := DigitRun(t);
            n + 1 < |t| && t[n] == '.' && forall i :: n + 1 <= i < |t| ==> IsDigit(t[i])
  {
    DigitsOfTail(t, DigitRun(t) + 1);
  }

  /** Digits from after the '.' at `n` up to `m`: the keyword follows
      neither the '.' nor `m`, unless the digits go on past `m`. */
  lemma DecimalTail(s: string, n: nat, m: nat)
    requires n + 1 < m <= |s| && s[n] == '.'
    requires forall i :: n + 1 <= i < m ==> IsDigit(s[i])
    ensures Fraction(s, n) >= m - n - 1 && !KeywordAt(s, n, "star")
    ensures Fraction(s, n) > m - n - 1 ==> !KeywordAt(s, m, "star")
  {
    KeywordNotAt(s, n, "star");
    FractionAtLeast(s, n, m - n - 1);
    if Fraction(s, n) > m - n - 1 {
      KeywordNotAt(s, m, "star");
    }
  }

  /** A prefix whose digits stop short of the digit run of `s` is neither
      captured nor followed by the keyword. */
  lemma ExactLongerRun(s: string, t: string)
    requires RatingShape(t) && |t| <= |s| && s[..|t|] == t && DigitRun(s) > DigitRun(t)
    ensures RatingAt(s) != Some(t) && !KeywordAt(s, |t|, "star")
  {
    KeywordNotAt(s, DigitRun(t), "star");
  }

  /** The whole digit run of `s`, captured without a fraction. */
  lemma ExactInteger(s: string, t: string)
    requires 0 < |t| == DigitRun(s) && s[..|t|] == t
    ensures RatingAt(s) == Some(t) <==> KeywordAt(s, |t|, "star")
  {
    var n := |t|;
    var f := Fraction(s, n);
    if f > 0 {
      KeywordNotAt(s, n, "star");
      RatingOfDecimal(s, n, f);
      assert |s[..n + 1 + f]| != |t|;
    } else {
      assert RatingAt(s) == if KeywordAt(s, n, "star") then Some(s[..n]) else None;
    }
  }

  /** The digit run of `s`, its '.', and some of the digits after it,
      where the keyword does not follow the digit run and cannot follow `t`
      unless `t` takes every digit after the '.'. */
  lemma ExactDecimal(s: string, t: string, n: nat)
    requires 0 < n == DigitRun(s) && n + 1 < |t| <= |s| && s[..|t|] == t
    requires Fraction(s, n) >= |t| - n - 1 && !KeywordAt(s, n, "star")
    requires Fraction(s, n) > |t| - n - 1 ==> !KeywordAt(s, |t|, "star")
    ensures RatingAt(s) == Some(t) <==> KeywordAt(s, |t|, "star")
  {
    var f := Fraction(s, n);
    RatingOfDecimal(s, n, f);
    CaptureIs(RatingAt(s), s, t, n + 1 + f, KeywordAt(s, n + 1 + f, "star"), KeywordAt(s, |t|, "star"));
  }

  /** A capture of the prefix of length `m`, or none, is the prefix `t`
      exactly when `t` is that long and the capture happens. */
  lemma CaptureIs(g: Option<string>, s: string, t: string, m: nat, at: bool, atT: bool)
    requires |t| <= m <= |s| && s[..|t|] == t
    requires g == if at then Some(s[..m]) else None
    requires m == |t| ==> at == atT
    requires m != |t| ==> !atT
    ensures g == Some(t) <==> atT
  {
    if m != |t| && g.Some? {
      assert |g.value| != |t|;
    }
  }

  /** Where `\s*star` does not follow the digit run, the rating is the
      decimal or nothing. */
  lemma RatingOfDecimal(s: string, n: nat, f: nat)
    requires 0 < n == DigitRun(s) && 0 < f == Fraction(s, n) && !KeywordAt(s, n, "star")
    ensures RatingAt(s) == if KeywordAt(s, n + 1 + f, "star") then Some(s[..n + 1 + f]) else None
  {
  }

  /** `k` digits after the '.' at `n` are all taken by the greedy `\d+`. */
  lemma FractionAtLeast(s: string, n: nat, k: nat)
    requires n < |s| && s[n] == '.' && n + 1 + k <= |s|
    requires forall i :: n + 1 <= i < n + 1 + k ==> IsDigit(s[i])
    ensures Fraction(s, n) >= k
    ensures Fraction(s, n) > k ==> IsDigit(s[n + 1 + k])
  {
    DigitRunAtLeast(s[n + 1..], k);
    if Fraction(s, n) > k {
      assert s[n + 1..][k] == s[n + 1 + k];
    }
  }

  // ---------------------------------------------------------------------
  // The count patterns

  /** `[A-Za-z\+]`. */
  predicate IsSuffixChar(c: char) {
    IsAsciiLetter(c) || c == '+'
  }

  /** Where the run of `[A-Za-z\+]` that starts at `j` ends. */
  function SuffixEnd(s: string, j: nat): (e: nat)
    requires j <= |s|
    ensures j <= e <= |s|
    ensures forall i :: j <= i < e ==> IsSuffixChar(s[i])
    ensures e == |s| || !IsSuffixChar(s[e])
    decreases |s| - j
  {
    if j < |s| && IsSuffixChar(s[j]) then SuffixEnd(s, j + 1) else j
  }

  /** The keyword follows no position from `a` up to, not including, `b`. */
  predicate KeywordNowhere(s: string, kw: string, a: nat, b: nat)
    requires b <= |s| + 1
  {
    forall i :: a <= i < b ==> !KeywordAt(s, i, kw)
  }

  /** The lazy `[A-Za-z\+]*?` followed by `\s*<kw>`, from `j` on: the
      first end position, from `j` up to the end of the suffix run, that
      the keyword follows. */
  function Lazy(s: string, kw: string, j: nat): (g: Option<string>)
    requires j <= |s|
    ensures g.Some? ==>
              && j <= |g.value| <= SuffixEnd(s, j) && s[..|g.value|] == g.value
              && KeywordAt(s, |g.value|, kw)
              && KeywordNowhere(s, kw, j, |g.value|)
    ensures g.None? ==> KeywordNowhere(s, kw, j, SuffixEnd(s, j) + 1)
    decreases |s| - j
  {
    if KeywordAt(s, j, kw) then Some(s[..j])
    else if j < |s| && IsSuffixChar(s[j]) then Lazy(s, kw, j + 1)
    else None
  }

  /** `(\d+[A-Za-z\+]*?)\s*<kw>` anchored at the start of `s`: the digit
      run, then the shortest run of letters and '+' after which the keyword
      follows. Giving back digits never helps, since a digit is neither a
      suffix character, whitespace nor a keyword letter. */
  function CountAt(s: string, kw: string): (g: Option<string>)
    ensures g.Some? ==>
              var n := DigitRun(s);
              && 0 < n <= |g.value| <= SuffixEnd(s, n) && s[..|g.value|] == g.value
              && KeywordAt(s, |g.value|, kw)
              && KeywordNowhere(s, kw, n, |g.value|)
    ensures g.None? && DigitRun(s) > 0 ==>
              KeywordNowhere(s, kw, DigitRun(s), SuffixEnd(s, DigitRun(s)) + 1)
  {
    var n := DigitRun(s);
    if n == 0 then None else Lazy(s, kw, n)
  }

  /** The anchored count match is exactly the prefix `t` that runs from
      the digit run into the suffix run, that the keyword follows, and
      before whose end, past the digits, the keyword follows nowhere. */
  lemma CountAtExact(s: string, kw: string, t: string)
    requires |t| <= |s| && s[..|t|] == t
    requires 0 < DigitRun(s) <= |t| <= SuffixEnd(s, DigitRun(s))
    ensures CountAt(s, kw) == Some(t) <==>
              KeywordAt(s, |t|, kw) && KeywordNowhere(s, kw, DigitRun(s), |t|)
  {
    var n := DigitRun(s);
    var g := CountAt(s, kw);
    if KeywordAt(s, |t|, kw) && KeywordNowhere(s, kw, n, |t|) && g.Some? {
      assert |g.value| == |t|;
    }
  }

  /** The converse of the miss case: with the digit run present, the
      pattern misses exactly when the keyword follows nowhere from the end
      of the digits to the end of the suffix run. */
  lemma CountMiss(s: string, kw: string)
    requires 0 < DigitRun(s) && KeywordNowhere(s, kw, DigitRun(s), SuffixEnd(s, DigitRun(s)) + 1)
    ensures CountAt(s, kw).None?
  {
  }

  // ---------------------------------------------------------------------
  // re.search

  datatype Pattern = Rating | Count(keyword: string)

  const Stars: Pattern := Rating
  const Reviews: Pattern := Count("review")
  const Downloads: Pattern := Count("download")

  /** The pattern's match anchored at the start of `s`, as its first group. */
  function MatchAt(p: Pattern, s: string): (g: Option<string>)
    ensures g.Some? ==> 0 < |g.value| <= |s| && s[..|g.value|] == g.value && IsDigit(s[0])
  {
    match p
    case Rating => RatingAt(s)
    case Count(kw) => CountAt(s, kw)
  }

  /** Where a search hit starts, and its first group. */
  datatype Hit = Hit(at: nat, group: string)

  /** `re.search` from position `i` on: the leftmost position at which the
      pattern matches. */
  function SearchFrom(p: Pattern, s: string, i: nat): (h: Option<Hit>)
    requires i <= |s|
    ensures h.Some? ==>
              && i <= h.value.at < |s| && MatchAt(p, s[h.value.at..]) == Some(h.value.group)
              && forall j :: i <= j < h.value.at ==> MatchAt(p, s[j..]).None?
    ensures h.None? ==> forall j :: i <= j <= |s| ==> MatchAt(p, s[j..]).None?
    decreases |s| - i
  {
    if i == |s| then
      NoMatchAtEnd(p, s);
      None
    else
      match MatchAt(p, s[i..])
      case Some(g) => Some(Hit(i, g))
      case None =>
        var h := SearchFrom(p, s, i + 1);
        if h.Some? then
          MissesExtend(p, s, i, h.value.at);
          h
        else
          MissesExtend(p, s, i, |s| + 1);
          h
  }

  /** Every pattern needs a digit, so none matches at the end. */
  lemma NoMatchAtEnd(p: Pattern, s: string)
    ensures MatchAt(p, s[|s|..]).None?
  {
    assert s[|s|..] == [];
  }

  /** A miss at `i` extends a run of misses that starts at `i + 1`. */
  lemma MissesExtend(p: Pattern, s: string, i: nat, a: nat)
    requires i < |s| && i + 1 <= a <= |s| + 1 && MatchAt(p, s[i..]).None?
    requires forall j :: i + 1 <= j < a ==> MatchAt(p, s[j..]).None?
    ensures forall j :: i <= j < a ==> MatchAt(p, s[j..]).None?
  {
    var m := MatchAt(p, s[i..]);
    forall j | i <= j < a
      ensures MatchAt(p, s[j..]).None?
    {
      if j == i {
        assert MatchAt(p, s[j..]) == m;
      }
    }
  }

  function Search(p: Pattern, s: string): Option<Hit> {
    SearchFrom(p, s, 0)
  }

  /** `match.group(1) if match else "Not found"`. */
  function GroupOr(h: Option<Hit>): string {
    if h.Some? then h.value.group else NotFound
  }

  // ---------------------------------------------------------------------
  // extract_app_info and get_app_info_from_html

  datatype Counts = Counts(rating: string, reviews: string, downloads: string)

  /** A pattern's value in a text: "Not found" exactly when the pattern
      matches at no position; otherwise the group of the leftmost match,
      which starts with a digit. */
  function ValueOf(p: Pattern, s: string): (v: string)
    ensures v == NotFound <==> forall j :: 0 <= j <= |s| ==> MatchAt(p, s[j..]).None?
    ensures v != NotFound ==>
              exists j :: 0 <= j < |s| && MatchAt(p, s[j..]) == Some(v)
                          && forall i :: 0 <= i < j ==> MatchAt(p, s[i..]).None?
  {
    var h := Search(p, s);
    if h.Some? then
      assert IsDigit(h.value.group[0]);
      assert !IsDigit(NotFound[0]);
      h.value.group
    else NotFound
  }

  /** The value is the group of the match at `j` when the pattern matches
      at no earlier position. */
  lemma ValueAt(p: Pattern, s: string, j: nat, g: string)
    requires j < |s| && MatchAt(p, s[j..]) == Some(g)
    requires forall i :: 0 <= i < j ==> MatchAt(p, s[i..]).None?
    ensures ValueOf(p, s) == g
  {
    var v := ValueOf(p, s);
    var k :| 0 <= k < |s| && MatchAt(p, s[k..]) == Some(v) && forall i :: 0 <= i < k ==> MatchAt(p, s[i..]).None?;
  }

  /** `extract_app_info`: commas become dots, then the three searches. */
  function ExtractInfo(raw: string): (c: Counts)
    ensures var s := ReplaceChar(raw, ',', '.');
            c == Counts(ValueOf(Stars, s), ValueOf(Reviews, s), ValueOf(Downloads, s))
  {
    var s := ReplaceChar(raw, ',', '.');
    Counts(GroupOr(Search(Stars, s)), GroupOr(Search(Reviews, s)), GroupOr(Search(Downloads, s)))
  }

  /** No value can be found in a text without a digit: all three are
      "Not found". This covers the empty text and labels with no number. */
  lemma NoDigitNotFound(raw: string)
    requires !HasDigit(raw)
    ensures ExtractInfo(raw) == Counts(NotFound, NotFound, NotFound)
  {
    var s := ReplaceChar(raw, ',', '.');
    forall p: Pattern, j | 0 <= j <= |s|
      ensures MatchAt(p, s[j..]).None?
    {
      if j < |s| {
        assert s[j..][0] == s[j];
        assert !IsDigit(raw[j]);
      }
    }
  }

  /** The comma normalisation: a text with no comma is searched as is. */
  lemma NoCommaUnchanged(raw: string)
    requires ',' !in raw
    ensures ReplaceChar(raw, ',', '.') == raw
  {
  }

  /** `get_app_info_from_html`, with the two `div` lookups as inputs: the
      text of the `l8YSdd` container, if there is one, and that of the
      `xg1aie` block, if there is one. */
  datatype LegacyInfo = LegacyInfo(rating: string, reviews: string, downloads: string, lastUpdated: string)

  function LegacyAppInfo(info: Option<string>, updated: Option<string>): (r: LegacyInfo)
    ensures info.None? ==> r.rating == NotFound && r.reviews == NotFound && r.downloads == NotFound
    ensures info.Some? ==>
              var c := ExtractInfo(Strip(info.value));
              r.rating == c.rating && r.reviews == c.reviews && r.downloads == c.downloads
    ensures updated.None? ==> r.lastUpdated == NotFound
    ensures updated.Some? ==> r.lastUpdated == Strip(updated.value)
  {
    var c := if info.Some? then ExtractInfo(Strip(info.value)) else Counts(NotFound, NotFound, NotFound);
    var last := if updated.Some? then Strip(updated.value) else NotFound;
    LegacyInfo(c.rating, c.reviews, c.downloads, last)
  }

  /** A container whose text holds no digit reads as no container at all. */
  lemma DigitlessInfo(text: string, updated: Option<string>)
    requires !HasDigit(text)
    ensures LegacyAppInfo(Some(text), updated) == LegacyAppInfo(None, updated)
  {
    var t := Strip(text);
    forall i | 0 <= i < |t|
      ensures !IsDigit(t[i])
    {
      assert t[i] == text[LeadingSpace(text) + i];
    }
    NoDigitNotFound(t);
  }

  // ---------------------------------------------------------------------
  // The documented examples, anchored at the number

  /** "4.5 stars" gives the rating "4.5". */
  lemma RatingLower()
    ensures RatingAt("4.5 stars") == Some("4.5")
  {
    var s := "4.5 stars";
    assert s[..3] == "4.5" && KeywordAt(s, 3, "star");
    RatingOfDecimal3(s, "4.5");
  }

  /** The singular keyword will do: "5.0 star" gives "5.0". */
  lemma RatingSingular()
    ensures RatingAt("5.0 star") == Some("5.0")
  {
    var s := "5.0 star";
    assert s[..3] == "5.0" && KeywordAt(s, 3, "star");
    RatingOfDecimal3(s, "5.0");
  }

  /** The keyword is matched in any case: "3.3 STAR" gives "3.3". */
  lemma RatingUpper()
    ensures RatingAt("3.3 STAR") == Some("3.3")
  {
    var s := "3.3 STAR";
    assert s[..3] == "3.3" && KeywordAt(s, 3, "star");
    RatingOfDecimal3(s, "3.3");
  }

  /** A three-character decimal followed by the keyword is the rating. */
  lemma RatingOfDecimal3(s: string, t: string)
    requires |t| == 3 && IsDigit(t[0]) && t[1] == '.' && IsDigit(t[2])
    requires |s| > 3 && s[..3] == t && KeywordAt(s, 3, "star")
    ensures RatingAt(s) == Some(t)
  {
    assert DigitRun(t) == 1;
    assert t[2..] == [t[2]];
    RatingAtExact(s, t);
  }

  /** The lazy suffix stops at the keyword: "100K+ reviews" gives "100K+". */
  lemma ReviewsScaled()
    ensures CountAt("100K+ reviews", "review") == Some("100K+")
  {
    var s := "100K+ reviews";
    CountRuns(s, "100", "K+", " reviews");
    ReviewsScaledKeyword();
    CountAtExact(s, "review", "100K+");
  }

  /** The digit run and the suffix run of a text spelled out as digits,
      suffix characters and a rest that continues neither. */
  lemma CountRuns(s: string, w: string, suffix: string, rest: string)
    requires s == w + suffix + rest && IsNumeral(w)
    requires forall i :: 0 <= i < |suffix| ==> IsSuffixChar(suffix[i])
    requires suffix == [] || !IsDigit(suffix[0])
    requires rest == [] || (!IsDigit(rest[0]) && !IsSuffixChar(rest[0]))
    ensures s[..|w| + |suffix|] == w + suffix
    ensures DigitRun(s) == |w| && SuffixEnd(s, |w|) == |w| + |suffix|
  {
    SpelledDigits(s, w, suffix, rest);
    SpelledSuffix(s, w, suffix, rest);
    SuffixEndAt(s, |w|, |w| + |suffix|);
  }

  /** The digit run of such a text is the spelled-out number. */
  lemma SpelledDigits(s: string, w: string, suffix: string, rest: string)
    requires s == w + suffix + rest && IsNumeral(w)
    requires suffix == [] || !IsDigit(suffix[0])
    requires rest == [] || !IsDigit(rest[0])
    ensures DigitRun(s) == |w|
  {
    assert s == w + (suffix + rest);
    DigitRunOfNumeral(w, suffix + rest);
  }

  /** The suffix characters of such a text sit right after the number. */
  lemma SpelledSuffix(s: string, w: string, suffix: string, rest: string)
    requires s == w + suffix + rest
    requires forall i :: 0 <= i < |suffix| ==> IsSuffixChar(suffix[i])
    requires rest == [] || !IsSuffixChar(rest[0])
    ensures forall i :: |w| <= i < |w| + |suffix| ==> IsSuffixChar(s[i])
    ensures |w| + |suffix| == |s| || !IsSuffixChar(s[|w| + |suffix|])
  {
    forall i | |w| <= i < |w| + |suffix|
      ensures IsSuffixChar(s[i])
    {
      assert s[i] == suffix[i - |w|];
    }
    if rest != [] {
      assert s[|w| + |suffix|] == rest[0];
    }
  }

  /** The suffix run from `j` ends at the first character from `j` on that
      cannot extend it. */
  lemma {:induction false} SuffixEndAt(s: string, j: nat, e: nat)
    requires j <= e <= |s|
    requires forall i :: j <= i < e ==> IsSuffixChar(s[i])
    requires e == |s| || !IsSuffixChar(s[e])
    ensures SuffixEnd(s, j) == e
    decreases e - j
  {
    if j < e {
      SuffixEndAt(s, j + 1, e);
    }
  }

  /** In "100K+ reviews" the keyword first follows the number at 5. */
  lemma ReviewsScaledKeyword()
    ensures KeywordAt("100K+ reviews", 5, "review")
    ensures KeywordNowhere("100K+ reviews", "review", 3, 5)
  {
    assert !KeywordAt("100K+ reviews", 3, "review") && !KeywordAt("100K+ reviews", 4, "review");
  }

  /** "1M+ Downloads" gives "1M+". */
  lemma DownloadsScaled()
    ensures CountAt("1M+ Downloads", "download") == Some("1M+")
  {
    var s := "1M+ Downloads";
    CountRuns(s, "1", "M+", " Downloads");
    DownloadsScaledKeyword();
    CountAtExact(s, "download", "1M+");
  }

  /** In "1M+ Downloads" the keyword first follows the number at 3. */
  lemma DownloadsScaledKeyword()
    ensures KeywordAt("1M+ Downloads", 3, "download")
    ensures KeywordNowhere("1M+ Downloads", "download", 1, 3)
  {
    assert !KeywordAt("1M+ Downloads", 1, "download") && !KeywordAt("1M+ Downloads", 2, "download");
  }

  /** "999 REVIEWS" gives "999". */
  lemma ReviewsUpper()
    ensures CountAt("999 REVIEWS", "review") == Some("999")
  {
    var s := "999 REVIEWS";
    CountRuns(s, "999", "", " REVIEWS");
    ReviewsUpperKeyword();
    CountAtExact(s, "review", "999");
  }

  /** In "999 REVIEWS" the keyword, in capitals, follows the number at 3. */
  lemma ReviewsUpperKeyword()
    ensures KeywordAt("999 REVIEWS", 3, "review")
    ensures KeywordNowhere("999 REVIEWS", "review", 3, 3)
  {
  }


  /** A single digit is a whole count: "1 reviews" gives "1". */
  lemma ReviewsSingle()
    ensures CountAt("1 reviews", "review") == Some("1")
  {
    var s := "1 reviews";
    CountRuns(s, "1", "", " reviews");
    ReviewsSingleKeyword();
    CountAtExact(s, "review", "1");
  }

  /** In "1 reviews" the keyword follows the digit at 1. */
  lemma ReviewsSingleKeyword()
    ensures KeywordAt("1 reviews", 1, "review")
    ensures KeywordNowhere("1 reviews", "review", 1, 1)
  {
  }

  /** "1 Downloads" gives "1". */
  lemma DownloadsSingle()
    ensures CountAt("1 Downloads", "download") == Some("1")
  {
    var s := "1 Downloads";
    CountRuns(s, "1", "", " Downloads");
    DownloadsSingleKeyword();
    CountAtExact(s, "download", "1");
  }

  /** In "1 Downloads" the keyword follows the digit at 1. */
  lemma DownloadsSingleKeyword()
    ensures KeywordAt("1 Downloads", 1, "download")
    ensures KeywordNowhere("1 Downloads", "download", 1, 1)
  {
  }

  /** "999 DOWNLOADS" gives "999". */
  lemma DownloadsUpper()
    ensures CountAt("999 DOWNLOADS", "download") == Some("999")
  {
    var s := "999 DOWNLOADS";
    CountRuns(s, "999", "", " DOWNLOADS");
    DownloadsUpperKeyword();
    CountAtExact(s, "download", "999");
  }

  /** In "999 DOWNLOADS" the keyword, in capitals, follows the number at 3. */
  lemma DownloadsUpperKeyword()
    ensures KeywordAt("999 DOWNLOADS", 3, "download")
    ensures KeywordNowhere("999 DOWNLOADS", "download", 3, 3)
  {
  }

  /** Empty text, and labels without numbers, give "Not found" three
      times. */
  lemma NoNumberExamples()
    ensures ExtractInfo("") == Counts(NotFound, NotFound, NotFound)
    ensures ExtractInfo("Rating: , reviews, Downloads") == Counts(NotFound, NotFound, NotFound)
  {
    NoDigitNotFound("");
    var s := "Rating: , reviews, Downloads";
    assert !HasDigit(s);
    NoDigitNotFound(s);
  }

  // ---------------------------------------------------------------------
  // What the extracted values are made of

  /** A character a captured group can hold: a digit, the '.' of a rating
      (or of a count whose ',' became '.') or a `[A-Za-z\+]` suffix. */
  predicate ValueChar(c: char) {
    IsDigit(c) || c == '.' || IsSuffixChar(c)
  }

  /** Every character of a captured group is a value character. */
  lemma GroupChars(p: Pattern, s: string)
    ensures MatchAt(p, s).Some? ==> forall i :: 0 <= i < |MatchAt(p, s).value| ==> ValueChar(MatchAt(p, s).value[i])
  {
    var g := MatchAt(p, s);
    if g.Some? {
      var t := g.value;
      var n := DigitRun(s);
      forall i | 0 <= i < |t|
        ensures ValueChar(t[i])
      {
        assert t[i] == s[i];
        if p.Count? && i >= n {
          assert n <= i < SuffixEnd(s, n);
        } else if p.Rating? && i > n {
          DigitsOfTail(t, n + 1);
        }
      }
    }
  }

  /** A captured group holds no line break. */
  lemma GroupLineFree(p: Pattern, t: string)
    requires MatchAt(p, t).Some?
    ensures '\n' !in MatchAt(p, t).value
  {
    GroupChars(p, t);
  }

  /** A found value, or "Not found", holds no line break. */
  lemma ValueLineFree(p: Pattern, s: string)
    ensures '\n' !in ValueOf(p, s)
  {
    var h := Search(p, s);
    assert ValueOf(p, s) == GroupOr(h);
    if h.Some? {
      var t := s[h.value.at..];
      assert MatchAt(p, t) == Some(h.value.group);
      GroupLineFree(p, t);
    } else {
      assert forall i :: 0 <= i < |NotFound| ==> NotFound[i] != '\n';
    }
  }

  /** Stripping a text adds no character to it. */
  lemma StripLineFree(u: string)
    requires '\n' !in u
    ensures '\n' !in Strip(u)
  {
    var t := Strip(u);
    forall i | 0 <= i < |t|
      ensures t[i] != '\n'
    {
      assert t[i] == u[LeadingSpace(u) + i];
    }
  }

  /** No extracted count holds a line break, and the date holds one only
      when the date block's text does. */
  lemma InfoLineFree(info: Option<string>, updated: Option<string>)
    requires updated.Some? ==> '\n' !in updated.value
    ensures var r := LegacyAppInfo(info, updated);
            '\n' !in r.rating && '\n' !in r.reviews && '\n' !in r.downloads && '\n' !in r.lastUpdated
  {
    if info.Some? {
      var s := ReplaceChar(Strip(info.value), ',', '.');
      ValueLineFree(Stars, s);
      ValueLineFree(Reviews, s);
      ValueLineFree(Downloads, s);
    }
    if updated.Some? {
      StripLineFree(updated.value);
    }
  }

  /** The two lookups do not interfere: the counts come from the container
      alone and the date from the date block alone. */
  lemma LookupsIndependent(info: Option<string>, info': Option<string>,
                           updated: Option<string>, updated': Option<string>)
    ensures LegacyAppInfo(info, updated).lastUpdated == LegacyAppInfo(info', updated).lastUpdated
    ensures var (a, b) := (LegacyAppInfo(info, updated), LegacyAppInfo(info, updated'));
            a.rating == b.rating && a.reviews == b.reviews && a.downloads == b.downloads
  {
  }
}
