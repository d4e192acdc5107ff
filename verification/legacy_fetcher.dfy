/** The fetch loop of the older scraper: `read_cached_packages`,
    `send_request`, `save_to_cache_and_csv` and `main`.

    One request goes out per listed package that the cache file does not
    name, to the bare details address of the package. On a 200 answer the
    values extracted from the page are appended to the cache file and to
    the output csv; every request, answered or not, is followed by a delay.
    The set of cached packages is read once, before the loop, and is not
    updated while the loop runs.

    The network is an oracle: `respond(n, url)` is the answer to the n-th
    request. The HTML parser is a function from the page text to the two
    `div` lookups `get_app_info_from_html` makes. The cache file is kept as
    its text, the output csv as its sequence of rows (csv quoting is not
    modelled). */
module LegacyFetcher {
  import opened Wrappers
  import opened Text
  import opened PlayUrl
  import opened PackageList
  import opened LegacyExtractor

  type Row = seq<string>

  datatype Response = Response(status: int, text: string)

  /** The text of a page's `l8YSdd` container and of its `xg1aie` block,
      each when the page has one. */
  datatype Page = Page(info: Option<string>, updated: Option<string>)

  /** What the loop talks to: the network and the parser. */
  datatype Env = Env(respond: (nat, string) -> Response, parse: string -> Page)

  datatype Event = Request(url: string) | Delay

  /** The cache file (absent until something is saved), the rows of the
      output csv, and how many requests have been sent so far. */
  datatype State = State(cacheFile: Option<string>, output: seq<Row>, sent: nat)

  datatype Outcome = Outcome(state: State, events: seq<Event>)

  /** The header row written to an output csv that does not exist yet. */
  const Header: Row := ["Package Name", "Rating", "Reviews", "Downloads", "Last Updated"]

  // ---------------------------------------------------------------------
  // send_request

  /** The response is passed on for 200 only; 404 and every other status
      give nothing. */
  function SendRequest(resp: Response): (r: Option<Response>)
    ensures r.Some? <==> resp.status == 200
    ensures r.Some? ==> r.value == resp
  {
    if resp.status == 200 then Some(resp) else None
  }

  // ---------------------------------------------------------------------
  // The cache file

  function Content(file: Option<string>): string {
    if file.Some? then file.value else []
  }

  /** The values saved for a package, in the order both files hold them. */
  function Record(pkg: string, info: LegacyInfo): Row {
    [pkg, info.rating, info.reviews, info.downloads, info.lastUpdated]
  }

  /** The cache line of a record, its fields joined by ';'. */
  function CacheLine(record: Row): string {
    Join(record, ';')
  }

  /** `read_cached_packages`: the names the cache file's lines give;
      nothing when the file does not exist. */
  function ReadCached(file: Option<string>): set<string> {
    if file.None? then {} else NamesOf(Lines(file.value))
  }

  /** The name part of every line that is not blank. */
  function NamesOf(lines: seq<string>): (names: set<string>)
    ensures forall i :: 0 <= i < |lines| && !AllSpace(lines[i]) ==> PackageName(lines[i]) in names
    ensures forall p :: p in names ==>
              exists i :: 0 <= i < |lines| && !AllSpace(lines[i]) && p == PackageName(lines[i])
  {
    forall i | 0 <= i < |lines|
      ensures Strip(lines[i]) != [] <==> !AllSpace(lines[i])
    {
      BlankIffStripEmpty(lines[i]);
    }
    set i | 0 <= i < |lines| && Strip(lines[i]) != [] :: PackageName(lines[i])
  }

  /** A line strips to nothing exactly when it is all whitespace. */
  lemma BlankIffStripEmpty(line: string)
    ensures Strip(line) == [] <==> AllSpace(line)
  {
    var lo := LeadingSpace(line);
    if Strip(line) == [] {
      forall i | 0 <= i < |line|
        ensures IsSpace(line[i])
      {
      }
    } else {
      assert Strip(line)[0] == line[lo];
    }
  }

  /** `save_to_cache_and_csv`: the cache line goes to the cache file, which
      is created when absent, then the record to the output csv. */
  function Save(st: State, record: Row): State {
    State(Some(Content(st.cacheFile) + CacheLine(record) + "\n"), st.output + [record], st.sent)
  }

  /** A package name the cache line can carry and give back: no ';', no
      line break, and no leading whitespace. */
  predicate CleanName(pkg: string) {
    ';' !in pkg && '\n' !in pkg && (pkg == [] || !IsSpace(pkg[0]))
  }

  /** Every name read from the listing is clean. */
  lemma ListedNamesClean(content: string)
    ensures forall p :: p in ReadPackageNames(content) ==> CleanName(p)
  {
    var names := ReadPackageNames(content);
    var lines := Lines(content);
    forall p | p in names
      ensures CleanName(p)
    {
      var i :| 0 <= i < |names| && names[i] == p;
      LineNameClean(lines[i]);
    }
  }

  /** The name of a line without a line break is clean. */
  lemma LineNameClean(line: string)
    requires '\n' !in line
    ensures CleanName(PackageName(line))
  {
    var p := PackageName(line);
    var s := Strip(line);
    assert p == s[..|p|];
    forall k | 0 <= k < |p|
      ensures p[k] != '\n'
    {
      assert p[k] == line[LeadingSpace(line) + k];
    }
  }

  /** The cache line of a record whose name is clean is not blank, and
      reading it gives the name back. */
  lemma CacheLineName(record: Row)
    requires |record| >= 2 && CleanName(record[0])
    ensures !AllSpace(CacheLine(record)) && PackageName(CacheLine(record)) == record[0]
  {
    var rest := Join(record[1..], ';');
    assert CacheLine(record) == record[0] + ";" + rest;
    NameBeforeSeparator(record[0], rest);
    assert CacheLine(record)[|record[0]|] == ';';
  }

  /** One more line: its name, unless the line is blank, joins the names
      of the lines before it. */
  lemma NamesAppend(lines: seq<string>, line: string)
    ensures NamesOf(lines + [line]) == NamesOf(lines) + (if AllSpace(line) then {} else {PackageName(line)})
  {
    NamesAppendFrom(lines, line);
    NamesAppendTo(lines, line);
  }

  lemma NamesAppendFrom(lines: seq<string>, line: string)
    ensures forall p :: p in NamesOf(lines + [line]) ==>
              p in NamesOf(lines) || (!AllSpace(line) && p == PackageName(line))
  {
    var now := lines + [line];
    forall p | p in NamesOf(now)
      ensures p in NamesOf(lines) || (!AllSpace(line) && p == PackageName(line))
    {
      var i :| 0 <= i < |now| && !AllSpace(now[i]) && p == PackageName(now[i]);
      if i < |lines| {
        assert now[i] == lines[i];
      }
    }
  }

  lemma NamesAppendTo(lines: seq<string>, line: string)
    ensures NamesOf(lines) <= NamesOf(lines + [line])
    ensures !AllSpace(line) ==> PackageName(line) in NamesOf(lines + [line])
  {
    var now := lines + [line];
    forall p | p in NamesOf(lines)
      ensures p in NamesOf(now)
    {
      var i :| 0 <= i < |lines| && !AllSpace(lines[i]) && p == PackageName(lines[i]);
      assert now[i] == lines[i];
    }
    assert now[|lines|] == line;
  }

  /** Reading the cache file after one more line was appended to it: the
      line's name, if the line is not blank, joins the names read before. */
  lemma ReadCachedAppend(file: Option<string>, line: string)
    requires Terminated(Content(file)) && '\n' !in line
    ensures ReadCached(Some(Content(file) + line + "\n"))
            == ReadCached(file) + (if AllSpace(line) then {} else {PackageName(line)})
  {
    LinesAppendLine(Content(file), line);
    NamesAppend(Lines(Content(file)), line);
    if file.None? {
      assert Lines(Content(file)) == [];
    }
  }

  /** A cache file whose last line lacks its newline: the appended line is
      glued onto that last line, so the read sees one merged name in place
      of both. */
  lemma ReadCachedGlued(file: Option<string>, last: string, line: string)
    requires Terminated(Content(file)) && '\n' !in last && '\n' !in line
    ensures ReadCached(Some(Content(file) + last + line + "\n"))
            == ReadCached(file) + (if AllSpace(last + line) then {} else {PackageName(last + line)})
  {
    ReadCachedAppend(file, last + line);
    assert Content(file) + last + line + "\n" == Content(file) + (last + line) + "\n";
  }

  /** A file of one line reads back as that line's name, if it has one. */
  lemma ReadCachedOneLine(line: string)
    requires '\n' !in line
    ensures ReadCached(Some(line + "\n")) == if AllSpace(line) then {} else {PackageName(line)}
  {
    var none: Option<string> := None;
    assert Content(none) == [];
    ReadCachedAppend(none, line);
    assert Content(none) + line + "\n" == line + "\n";
  }

  /** A file holding only the start of a name, without its newline, reads
      back as the merged name once a record line is appended: "abc" and
      then "def;4.5" give the one name "abcdef". */
  lemma GluedName(last: string, name: string, rest: string)
    requires last != [] && !IsSpace(last[0])
    requires ';' !in last && ';' !in name
    requires '\n' !in last && '\n' !in name && '\n' !in rest
    ensures ReadCached(Some(last + name + ";" + rest + "\n")) == {last + name}
  {
    var line := name + ";" + rest;
    var merged := last + line;
    assert merged == (last + name) + ";" + rest;
    assert !AllSpace(merged) by {
      assert merged[0] == last[0];
    }
    NameBeforeSeparator(last + name, rest);
    assert PackageName(merged) == last + name;
    ReadCachedOneLine(merged);
    assert merged + "\n" == last + name + ";" + rest + "\n";
  }

  // ---------------------------------------------------------------------
  // The package loop of `main`

  /** The address requested for a package: the details address with the
      package and nothing else. */
  function PackageUrl(pkg: string): string {
    BaseUrl + pkg
  }

  /** The values `get_app_info_from_html` gives for a page. */
  function PageInfo(env: Env, html: string): LegacyInfo {
    var page := env.parse(html);
    LegacyAppInfo(page.info, page.updated)
  }

  /** One iteration of the loop. A package of the cached set is skipped
      without a request or a delay; otherwise it is requested, saved on a
      200 answer, and a delay follows. */
  function Visit(env: Env, cached: set<string>, st: State, pkg: string): (o: Outcome)
    ensures pkg in cached ==> o == Outcome(st, [])
    ensures pkg !in cached ==> o.events == [Request(PackageUrl(pkg)), Delay] && o.state.sent == st.sent + 1
    ensures |st.output| <= |o.state.output| <= |st.output| + 1 && o.state.output[..|st.output|] == st.output
  {
    if pkg in cached then Outcome(st, [])
    else
      var url := PackageUrl(pkg);
      var next := st.(sent := st.sent + 1);
      match SendRequest(env.respond(st.sent, url))
      case None => Outcome(next, [Request(url), Delay])
      case Some(r) => Outcome(Save(next, Record(pkg, PageInfo(env, r.text))), [Request(url), Delay])
  }

  /** A failed request writes nothing: only the request count moves. */
  lemma FailedRequestWritesNothing(env: Env, cached: set<string>, st: State, pkg: string)
    requires pkg !in cached && env.respond(st.sent, PackageUrl(pkg)).status != 200
    ensures Visit(env, cached, st, pkg).state == st.(sent := st.sent + 1)
  {
  }

  /** A 200 answer appends the same record to both files: as a cache line
      to the cache file and as a row to the output csv. */
  lemma AnsweredRequestSaves(env: Env, cached: set<string>, st: State, pkg: string)
    requires pkg !in cached
    requires env.respond(st.sent, PackageUrl(pkg)).status == 200
    ensures var o := Visit(env, cached, st, pkg);
            var record := Record(pkg, PageInfo(env, env.respond(st.sent, PackageUrl(pkg)).text));
            && o.state.output == st.output + [record]
            && o.state.cacheFile == Some(Content(st.cacheFile) + CacheLine(record) + "\n")
  {
  }

  /** The listed packages the loop requests: those not in the cached set,
      in listing order, each as often as it is listed. */
  function Uncached(cached: set<string>, pkgs: seq<string>): (names: seq<string>)
    ensures |names| <= |pkgs|
    ensures forall p :: p in names <==> p in pkgs && p !in cached
  {
    if pkgs == [] then []
    else (if pkgs[0] in cached then [] else [pkgs[0]]) + Uncached(cached, pkgs[1..])
  }

  /** A request and a delay for every name, in order. */
  function Trace(names: seq<string>): (es: seq<Event>)
    ensures |es| == 2 * |names|
  {
    if names == [] then []
    else [Request(PackageUrl(names[0])), Delay] + Trace(names[1..])
  }

  /** The `i`-th name is requested at position `2 * i`, and the delay
      follows at once. */
  lemma {:induction false} TraceAt(names: seq<string>, i: nat)
    requires i < |names|
    ensures Trace(names)[2 * i] == Request(PackageUrl(names[i]))
    ensures Trace(names)[2 * i + 1] == Delay
  {
    if i > 0 {
      TraceAt(names[1..], i - 1);
      assert Trace(names)[2 * i] == Trace(names[1..])[2 * (i - 1)];
      assert Trace(names)[2 * i + 1] == Trace(names[1..])[2 * (i - 1) + 1];
    }
  }

  /** The loop over the listing. */
  function Run(env: Env, cached: set<string>, st: State, pkgs: seq<string>): (o: Outcome)
    ensures |st.output| <= |o.state.output| && o.state.output[..|st.output|] == st.output
    decreases pkgs
  {
    if pkgs == [] then Outcome(st, [])
    else
      var first := Visit(env, cached, st, pkgs[0]);
      var rest := Run(env, cached, first.state, pkgs[1..]);
      Outcome(rest.state, first.events + rest.events)
  }

  /** The loop's requests and delays depend on the listing and the cached
      set alone, whatever the answers: a request and a delay for every
      listed package that is not cached, in listing order. */
  lemma {:induction false} RunEvents(env: Env, cached: set<string>, st: State, pkgs: seq<string>)
    ensures Run(env, cached, st, pkgs).events == Trace(Uncached(cached, pkgs))
    ensures Run(env, cached, st, pkgs).state.sent == st.sent + |Uncached(cached, pkgs)|
    decreases pkgs
  {
    if pkgs != [] {
      var first := Visit(env, cached, st, pkgs[0]);
      var rest := Run(env, cached, first.state, pkgs[1..]);
      assert Run(env, cached, st, pkgs) == Outcome(rest.state, first.events + rest.events);
      RunEvents(env, cached, first.state, pkgs[1..]);
      var names := Uncached(cached, pkgs[1..]);
      if pkgs[0] !in cached {
        assert Uncached(cached, pkgs) == [pkgs[0]] + names;
        assert ([pkgs[0]] + names)[1..] == names;
      } else {
        assert Uncached(cached, pkgs) == names;
      }
    }
  }

  /** The cache lines of records, in order. */
  function CacheLines(rows: seq<Row>): (lines: seq<string>)
    ensures |lines| == |rows|
    ensures forall i :: 0 <= i < |rows| ==> lines[i] == CacheLine(rows[i])
  {
    seq(|rows|, i requires 0 <= i < |rows| => CacheLine(rows[i]))
  }

  /** From `st` to `st'` the two files stay in step: the output csv only
      grows, and the cache file grows by exactly the cache lines of the new
      rows, in the same order, coming into being with the first of them. */
  predicate InStep(st: State, st': State) {
    && |st.output| <= |st'.output| && st'.output[..|st.output|] == st.output
    && Content(st'.cacheFile) == Content(st.cacheFile) + Written(CacheLines(st'.output[|st.output|..]))
    && (st'.cacheFile.Some? <==> st.cacheFile.Some? || |st.output| < |st'.output|)
  }

  lemma InStepChain(a: State, b: State, c: State)
    requires InStep(a, b) && InStep(b, c)
    ensures InStep(a, c)
  {
    var ab := b.output[|a.output|..];
    var bc := c.output[|b.output|..];
    PrefixChain(a.output, b.output, c.output);
    CacheLinesConcat(ab, bc);
    WrittenConcat(CacheLines(ab), CacheLines(bc));
    AppendChain(Content(a.cacheFile), Written(CacheLines(ab)), Written(CacheLines(bc)),
                Content(b.cacheFile), Content(c.cacheFile));
  }

  /** A prefix of a prefix is a prefix, and what the longest adds is what
      each step added. */
  lemma PrefixChain<T>(x: seq<T>, y: seq<T>, z: seq<T>)
    requires |x| <= |y| <= |z| && y[..|x|] == x && z[..|y|] == y
    ensures z[..|x|] == x && z[|x|..] == y[|x|..] + z[|y|..]
  {
    assert z[..|x|] == z[..|y|][..|x|];
  }

  lemma AppendChain(x: string, y: string, w: string, b: string, c: string)
    requires b == x + y && c == b + w
    ensures c == x + (y + w)
  {
  }

  lemma CacheLinesConcat(x: seq<Row>, y: seq<Row>)
    ensures CacheLines(x + y) == CacheLines(x) + CacheLines(y)
  {
  }

  /** A row holding the values extracted from some page. */
  ghost predicate FromPage(env: Env, row: Row) {
    |row| == 5 && exists html :: row == Record(row[0], PageInfo(env, html))
  }

  /** One iteration keeps the files in step, saving at most one row, and
      only for a package that is not cached. */
  lemma VisitInStep(env: Env, cached: set<string>, st: State, pkg: string)
    ensures var o := Visit(env, cached, st, pkg);
            && InStep(st, o.state)
            && forall i :: |st.output| <= i < |o.state.output| ==>
                 FromPage(env, o.state.output[i]) && o.state.output[i][0] == pkg && pkg !in cached
  {
    var o := Visit(env, cached, st, pkg);
    var answer := env.respond(st.sent, PackageUrl(pkg));
    if pkg in cached || answer.status != 200 {
      UnchangedInStep(st, o.state);
    } else {
      var record := Record(pkg, PageInfo(env, answer.text));
      SaveInStep(st.(sent := st.sent + 1), record);
      assert FromPage(env, record);
    }
  }

  /** A step that changes neither file keeps them in step. */
  lemma UnchangedInStep(st: State, st': State)
    requires st'.cacheFile == st.cacheFile && st'.output == st.output
    ensures InStep(st, st')
  {
    assert st.output[|st.output|..] == [];
  }

  /** Saving a record keeps the files in step, the record being the one
      new row. */
  lemma SaveInStep(st: State, record: Row)
    ensures InStep(st, Save(st, record))
    ensures Save(st, record).output[|st.output|..] == [record]
  {
    var st' := Save(st, record);
    assert st'.output[..|st.output|] == st.output;
    assert st'.output[|st.output|..] == [record];
    assert Written(CacheLines([record])) == Written([]) + CacheLine(record) + "\n";
  }

  /** The whole loop keeps the files in step, and saves only packages of
      the listing that were not cached. */
  lemma {:induction false} RunInStep(env: Env, cached: set<string>, st: State, pkgs: seq<string>)
    ensures var o := Run(env, cached, st, pkgs);
            && InStep(st, o.state)
            && forall i :: |st.output| <= i < |o.state.output| ==>
                 FromPage(env, o.state.output[i]) && o.state.output[i][0] in pkgs && o.state.output[i][0] !in cached
    decreases pkgs
  {
    var o := Run(env, cached, st, pkgs);
    if pkgs == [] {
      assert o.state == st;
      assert st.output[|st.output|..] == [];
    } else {
      var first := Visit(env, cached, st, pkgs[0]);
      assert o.state == Run(env, cached, first.state, pkgs[1..]).state;
      VisitInStep(env, cached, st, pkgs[0]);
      RunInStep(env, cached, first.state, pkgs[1..]);
      InStepChain(st, first.state, o.state);
      forall i | |st.output| <= i < |o.state.output|
        ensures FromPage(env, o.state.output[i]) && o.state.output[i][0] in pkgs && o.state.output[i][0] !in cached
      {
        if i < |first.state.output| {
          assert o.state.output[i] == first.state.output[i];
        } else {
          assert o.state.output[i][0] in pkgs[1..];
        }
      }
    }
  }

  // ---------------------------------------------------------------------
  // Reading back what was saved

  /** A row whose cache line reads back as its name: a clean name, at
      least one more field, and no line break in any field. */
  predicate SavableRow(row: Row) {
    |row| >= 2 && CleanName(row[0]) && forall k :: 1 <= k < |row| ==> '\n' !in row[k]
  }

  /** The names of rows: their first fields. */
  function RowNames(rows: seq<Row>): (names: set<string>)
    ensures forall i :: 0 <= i < |rows| && rows[i] != [] ==> rows[i][0] in names
    ensures forall p :: p in names ==> exists i :: 0 <= i < |rows| && rows[i] != [] && p == rows[i][0]
  {
    set i | 0 <= i < |rows| && rows[i] != [] :: rows[i][0]
  }

  /** The cache line of a savable row is a single line. */
  lemma CacheLineLineFree(row: Row)
    requires SavableRow(row)
    ensures '\n' !in CacheLine(row)
  {
    JoinLacks(row, ';', '\n');
  }

  /** Reading the cache lines of savable rows gives back their names. */
  lemma CacheLinesNames(rows: seq<Row>)
    requires forall i :: 0 <= i < |rows| ==> SavableRow(rows[i])
    ensures NamesOf(CacheLines(rows)) == RowNames(rows)
  {
    var lines := CacheLines(rows);
    forall i | 0 <= i < |rows|
      ensures !AllSpace(lines[i]) && PackageName(lines[i]) == rows[i][0]
    {
      CacheLineName(rows[i]);
    }
  }

  /** Appending whole lines to a terminated cache file adds the names of
      the lines that are not blank. */
  lemma {:induction false} ReadCachedAppendAll(file: Option<string>, lines: seq<string>)
    requires Terminated(Content(file))
    requires forall i :: 0 <= i < |lines| ==> '\n' !in lines[i]
    ensures ReadCached(Some(Content(file) + Written(lines))) == ReadCached(file) + NamesOf(lines)
    decreases |lines|
  {
    if lines == [] {
      NothingAppended(file);
    } else {
      var init, last := lines[..|lines| - 1], lines[|lines| - 1];
      assert init + [last] == lines;
      ReadCachedAppendAll(file, init);
      var before := Some(Content(file) + Written(init));
      AppendOneMore(Content(file), init, last);
      ReadCachedAppend(before, last);
      NamesAppend(init, last);
      UnionStep(ReadCached(file), NamesOf(init), if AllSpace(last) then {} else {PackageName(last)},
                ReadCached(before), ReadCached(Some(Content(file) + Written(lines))), NamesOf(lines));
    }
  }

  lemma NothingAppended(file: Option<string>)
    ensures ReadCached(Some(Content(file) + Written([]))) == ReadCached(file) + NamesOf([])
  {
    assert Content(file) + Written([]) == Content(file);
    assert Lines([]) == [];
  }

  lemma UnionStep<T>(a: set<T>, n: set<T>, x: set<T>, r: set<T>, r': set<T>, n': set<T>)
    requires r == a + n && r' == r + x && n' == n + x
    ensures r' == a + n'
  {
  }

  /** Writing one more line after lines written to a terminated text
      leaves a text that ended its last line before that line. */
  lemma AppendOneMore(c: string, init: seq<string>, last: string)
    requires Terminated(c)
    ensures Terminated(c + Written(init))
    ensures (c + Written(init)) + last + "\n" == c + Written(init + [last])
  {
    var w := Written(init);
    assert (init + [last])[..|init|] == init;
    assert Written(init + [last]) == w + last + "\n";
    assert (c + w) + last + "\n" == c + (w + last + "\n");
  }

  /** Between two states in step, the names read from the cache file grow
      by exactly the names of the rows saved, provided those rows are
      savable and the cache file ended its last line. */
  lemma InStepNames(st: State, st': State)
    requires InStep(st, st') && Terminated(Content(st.cacheFile))
    requires forall i :: |st.output| <= i < |st'.output| ==> SavableRow(st'.output[i])
    ensures ReadCached(st'.cacheFile) == ReadCached(st.cacheFile) + RowNames(st'.output[|st.output|..])
  {
    var rows := st'.output[|st.output|..];
    var lines := CacheLines(rows);
    forall i | 0 <= i < |lines|
      ensures '\n' !in lines[i]
    {
      assert rows[i] == st'.output[|st.output| + i];
      CacheLineLineFree(rows[i]);
    }
    CacheLinesNames(rows);
    if st'.cacheFile.None? {
      assert rows == [];
    } else {
      ReadCachedAppendAll(st.cacheFile, lines);
    }
  }

  /** The parser's date block never holds a line break. */
  ghost predicate DatesLineFree(env: Env) {
    forall html :: env.parse(html).updated.Some? ==> '\n' !in env.parse(html).updated.value
  }

  /** A row extracted from a page, for a clean name, is savable. */
  lemma PageRowSavable(env: Env, row: Row)
    requires DatesLineFree(env) && FromPage(env, row) && CleanName(row[0])
    ensures SavableRow(row)
  {
    var html :| row == Record(row[0], PageInfo(env, html));
    var page := env.parse(html);
    InfoLineFree(page.info, page.updated);
    RecordSavable(row[0], PageInfo(env, html));
  }

  lemma RecordSavable(pkg: string, info: LegacyInfo)
    requires CleanName(pkg)
    requires '\n' !in info.rating && '\n' !in info.reviews && '\n' !in info.downloads && '\n' !in info.lastUpdated
    ensures SavableRow(Record(pkg, info))
  {
  }

  /** After the loop, reading the cache file gives the names it gave
      before together with every package saved during the loop: the
      cached set the next run starts from. */
  lemma RunReadBack(env: Env, cached: set<string>, st: State, pkgs: seq<string>)
    requires Terminated(Content(st.cacheFile)) && DatesLineFree(env)
    requires forall p :: p in pkgs ==> CleanName(p)
    ensures var o := Run(env, cached, st, pkgs);
            ReadCached(o.state.cacheFile) == ReadCached(st.cacheFile) + RowNames(o.state.output[|st.output|..])
  {
    var o := Run(env, cached, st, pkgs);
    RunInStep(env, cached, st, pkgs);
    forall i | |st.output| <= i < |o.state.output|
      ensures SavableRow(o.state.output[i])
    {
      PageRowSavable(env, o.state.output[i]);
    }
    InStepNames(st, o.state);
  }

  /** A listed package that is not cached is requested as often as it is
      listed: the cached set is not updated while the loop runs. */
  lemma {:induction false} UncachedKeepsRepeats(cached: set<string>, pkgs: seq<string>, p: string)
    requires p !in cached
    ensures multiset(Uncached(cached, pkgs))[p] == multiset(pkgs)[p]
    decreases pkgs
  {
    if pkgs != [] {
      UncachedKeepsRepeats(cached, pkgs[1..], p);
      assert pkgs == [pkgs[0]] + pkgs[1..];
    }
  }

  // ---------------------------------------------------------------------
  // main

  datatype MainResult = ListingMissing | Finished(run: Outcome)

  /** The output csv the loop starts from: the existing rows, or the
      header alone when the file does not exist. */
  function StartRows(output: Option<seq<Row>>): seq<Row> {
    if output.Some? then output.value else [Header]
  }

  /** `main`: read the listing (which must exist) and the cached set,
      create the output csv with its header when it does not exist, then
      run the loop with no request sent yet. */
  function LegacyMain(env: Env, listing: Option<string>, cacheFile: Option<string>,
                      output: Option<seq<Row>>): (r: MainResult)
    ensures r.ListingMissing? <==> listing.None?
    ensures r.Finished? ==>
              var todo := Uncached(ReadCached(cacheFile), ReadPackageNames(listing.value));
              && r.run.events == Trace(todo)
              && r.run.state.sent == |todo|
              && |StartRows(output)| <= |r.run.state.output|
              && r.run.state.output[..|StartRows(output)|] == StartRows(output)
  {
    if listing.None? then ListingMissing
    else
      var pkgs := ReadPackageNames(listing.value);
      var st := State(cacheFile, StartRows(output), 0);
      RunEvents(env, ReadCached(cacheFile), st, pkgs);
      Finished(Run(env, ReadCached(cacheFile), st, pkgs))
  }

  /** Running `main` again on the files the first run left behind requests
      exactly the listed packages that were neither cached before the first
      run nor saved by it; what the first run saved were listed packages
      that were not cached. */
  lemma ResumeSkipsSaved(env: Env, env': Env, listing: string, cacheFile: Option<string>, output: Option<seq<Row>>)
    requires Terminated(Content(cacheFile)) && DatesLineFree(env)
    ensures var first := LegacyMain(env, Some(listing), cacheFile, output).run.state;
            var saved := RowNames(first.output[|StartRows(output)|..]);
            var pkgs := ReadPackageNames(listing);
            && (forall p :: p in saved ==> p in pkgs && p !in ReadCached(cacheFile))
            && LegacyMain(env', Some(listing), first.cacheFile, Some(first.output)).run.events
               == Trace(Uncached(ReadCached(cacheFile) + saved, pkgs))
  {
    var pkgs := ReadPackageNames(listing);
    var cached := ReadCached(cacheFile);
    var st := State(cacheFile, StartRows(output), 0);
    var first := Run(env, cached, st, pkgs).state;
    assert LegacyMain(env, Some(listing), cacheFile, output).run.state == first;
    ListedNamesClean(listing);
    RunReadBack(env, cached, st, pkgs);
    RunSavesListed(env, cached, st, pkgs);
  }

  /** The loop saves only listed packages that are not cached. */
  lemma RunSavesListed(env: Env, cached: set<string>, st: State, pkgs: seq<string>)
    ensures var o := Run(env, cached, st, pkgs);
            forall p :: p in RowNames(o.state.output[|st.output|..]) ==> p in pkgs && p !in cached
  {
    var o := Run(env, cached, st, pkgs);
    RunInStep(env, cached, st, pkgs);
    var rows := o.state.output[|st.output|..];
    forall p | p in RowNames(rows)
      ensures p in pkgs && p !in cached
    {
      var i :| 0 <= i < |rows| && rows[i] != [] && p == rows[i][0];
      assert rows[i] == o.state.output[|st.output| + i];
    }
  }
}
