/** The region-aware cache of the current scraper: in memory a map from
    package to the regions already fetched for it (`read_cached_packages`,
    `add_package_to_cache`, `package_is_cached`), on disk an append-only log
    of `pkg;region` rows.

    A csv file is modelled as its sequence of rows, each row the text
    between line terminators; csv quoting is not modelled, so fields are
    assumed free of ';', '"' and line breaks. An absent file is `None`. */
module Ledger {
  import opened Wrappers
  import opened Text

  type Cache = map<string, seq<string>>

  /** The regions recorded for a package, in the order they were added;
      none for an unknown package. */
  function Regions(cache: Cache, pkg: string): seq<string> {
    if pkg in cache then cache[pkg] else []
  }

  /** `package_is_cached`: the package is known and the region is among
      its recorded regions. */
  predicate IsCached(cache: Cache, pkg: string, region: string) {
    pkg in cache && region in cache[pkg]
  }

  /** The in-memory half of `add_package_to_cache`: append the region to the
      package's list, creating the list when the package is new. The pair
      becomes cached, no other answer changes, and nothing is lost. */
  function Mark(cache: Cache, pkg: string, region: string): (c: Cache)
    ensures IsCached(c, pkg, region)
    ensures forall p, r :: p != pkg || r != region ==> (IsCached(c, p, r) <==> IsCached(cache, p, r))
    ensures c.Keys == cache.Keys + {pkg}
    ensures forall p :: p in cache ==> |cache[p]| <= |c[p]| && c[p][..|cache[p]|] == cache[p]
    ensures Regions(c, pkg) == Regions(cache, pkg) + [region]
  {
    cache[pkg := Regions(cache, pkg) + [region]]
  }

  /** The row the log gets for a pair. */
  function LogRow(pkg: string, region: string): string {
    Join([pkg, region], ';')
  }

  /** Appending a row to a csv file, creating the file when it is absent. */
  function Append(file: Option<seq<string>>, row: string): (f: Option<seq<string>>)
    ensures f.Some? && |f.value| >= 1 && f.value[|f.value| - 1] == row
    ensures file.Some? ==> f.value[..|f.value| - 1] == file.value
    ensures file.None? ==> f.value == [row]
  {
    if file.Some? then Some(file.value + [row]) else Some([row])
  }

  /** A row names a pair when it has at least two fields, the package and
      the region; later fields are ignored. */
  predicate RowNames(row: string, pkg: string, region: string) {
    var f := Split(row, ';');
    |f| >= 2 && f[0] == pkg && f[1] == region
  }

  predicate HasTwoFields(row: string) {
    |Split(row, ';')| >= 2
  }

  /** Reading the log row by row into the map. A row with fewer than two
      fields stops the read with the index of that row (the source raises
      an index error there). */
  function Replay(rows: seq<string>): (r: Result<Cache, nat>)
    ensures r.Success? <==> forall i :: 0 <= i < |rows| ==> HasTwoFields(rows[i])
    ensures r.Success? ==>
              forall p, g :: IsCached(r.value, p, g) <==> exists i :: 0 <= i < |rows| && RowNames(rows[i], p, g)
    ensures r.Failure? ==>
              && r.error < |rows| && !HasTwoFields(rows[r.error])
              && forall i :: 0 <= i < r.error ==> HasTwoFields(rows[i])
  {
    if rows == [] then Success(map[])
    else
      var init := rows[..|rows| - 1];
      var last := rows[|rows| - 1];
      assert rows == init + [last];
      match Replay(init)
      case Failure(k) => Failure(k)
      case Success(c) =>
        var f := Split(last, ';');
        if |f| < 2 then Failure(|rows| - 1)
        else
          ReplayStep(init, last, c);
          Success(Mark(c, f[0], f[1]))
  }

  /** One more row keeps the map equal to the pairs the rows name. */
  lemma ReplayStep(init: seq<string>, last: string, c: Cache)
    requires forall p, g :: IsCached(c, p, g) <==> exists i :: 0 <= i < |init| && RowNames(init[i], p, g)
    requires HasTwoFields(last)
    ensures var f := Split(last, ';');
            var rows := init + [last];
            forall p, g :: IsCached(Mark(c, f[0], f[1]), p, g)
                           <==> exists i :: 0 <= i < |rows| && RowNames(rows[i], p, g)
  {
    var f := Split(last, ';');
    var rows := init + [last];
    var c' := Mark(c, f[0], f[1]);
    forall p, g
      ensures IsCached(c', p, g) <==> exists i :: 0 <= i < |rows| && RowNames(rows[i], p, g)
    {
      if IsCached(c', p, g) {
        if p == f[0] && g == f[1] {
          assert RowNames(rows[|rows| - 1], p, g);
        } else {
          var i :| 0 <= i < |init| && RowNames(init[i], p, g);
          assert rows[i] == init[i];
        }
      }
      if exists i :: 0 <= i < |rows| && RowNames(rows[i], p, g) {
        var i :| 0 <= i < |rows| && RowNames(rows[i], p, g);
        if i < |init| {
          assert RowNames(init[i], p, g);
        }
      }
    }
  }

  /** `read_cached_packages`: an absent log gives the empty map. */
  function ReadLog(file: Option<seq<string>>): (r: Result<Cache, nat>)
    ensures file.None? ==> r == Success(map[])
  {
    if file.None? then Success(map[]) else Replay(file.value)
  }

  /** Disk and memory agree: the log reads back as the map. */
  predicate InSync(file: Option<seq<string>>, cache: Cache) {
    ReadLog(file) == Success(cache)
  }

  /** `add_package_to_cache` as a whole: the map gets the region, the log
      gets the row. */
  function Add(file: Option<seq<string>>, cache: Cache, pkg: string, region: string)
    : (Option<seq<string>>, Cache)
  {
    (Append(file, LogRow(pkg, region)), Mark(cache, pkg, region))
  }

  /** The row of a pair reads back as that pair, provided neither field
      holds a ';'. */
  lemma LogRowFields(pkg: string, region: string)
    requires ';' !in pkg && ';' !in region
    ensures Split(LogRow(pkg, region), ';') == [pkg, region]
  {
    SplitJoin([pkg, region], ';');
  }

  /** Re-reading the appended log reproduces the map the cache was updated
      to: adding a pair keeps disk and memory in sync. */
  lemma AddKeepsSync(file: Option<seq<string>>, cache: Cache, pkg: string, region: string)
    requires InSync(file, cache)
    requires ';' !in pkg && ';' !in region
    ensures var (file', cache') := Add(file, cache, pkg, region); InSync(file', cache')
  {
    LogRowFields(pkg, region);
    var rows := if file.Some? then file.value else [];
    assert Replay(rows) == Success(cache);
    var all := rows + [LogRow(pkg, region)];
    assert all[..|all| - 1] == rows;
    assert Add(file, cache, pkg, region).0 == Some(all);
  }

  /** A fresh start: with no log, nothing is cached, and the first pair
      added is the only one cached. */
  lemma FirstAdd(pkg: string, region: string)
    ensures InSync(None, map[])
    ensures forall p, r :: IsCached(Add(None, map[], pkg, region).1, p, r) <==> p == pkg && r == region
  {
  }
}
