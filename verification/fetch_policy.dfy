/** The fetch loop of the current scraper: `fetch_playstore_data_from_regions`
    for one package across regions, and `main` over the package listing.

    The loop is a pure step function. The network is an oracle: `respond(n,
    url)` is the answer to the n-th request of the run. The HTML parser and
    the four selectors are the function `parse`. Every output the source
    writes — csv rows, raw HTML files, cache rows, sleeps — is an event of
    the trace, in the order the source performs it; only the cache log is
    also kept as file contents, since the loop reads it back. */
module FetchPolicy {
  import opened Wrappers
  import opened Text
  import opened Extractor
  import opened PlayUrl
  import opened Ledger
  import opened PackageList

  datatype Response = Response(status: int, text: string)

  datatype Event =
    | Request(url: string)
    | FoundRow(pkg: string, region: string, rating: string, reviews: string, downloads: string, lastUpdated: string)
    | SaveHtml(path: string, html: string)
    | MissingRow(pkg: string, region: string, status: int, url: string)
    | ErrorRow(pkg: string, region: string, status: int, url: string)
    | CacheMark(pkg: string, region: string)
    | Cooldown(seconds: nat)
    | Delay

  /** The sleep after a "too many requests" answer. */
  const CooldownSeconds: nat := 3600

  /** The language every request asks for. */
  const Language: string := "en"

  /** Where the raw HTML of a found page is written. */
  function HtmlPath(prefix: string, pkg: string, region: string): string {
    prefix + "raw_html_output/" + pkg + "_" + region + ".html"
  }

  /** What the loop talks to: the output prefix, the network, the parser. */
  datatype Env = Env(prefix: string, respond: (nat, string) -> Response, parse: string -> Locators)

  /** The in-memory cache, the cache log on disk, and how many requests
      have been sent so far. */
  datatype State = State(cache: Cache, log: Option<seq<string>>, sent: nat)

  datatype Outcome = Outcome(state: State, events: seq<Event>)

  // ---------------------------------------------------------------------
  // Counting events

  predicate IsRequest(e: Event) { e.Request? }
  predicate IsDelay(e: Event) { e.Delay? }
  predicate IsFound(e: Event) { e.FoundRow? }
  predicate IsMissing(e: Event) { e.MissingRow? }
  predicate IsError(e: Event) { e.ErrorRow? }
  predicate IsSave(e: Event) { e.SaveHtml? }
  predicate IsMark(e: Event) { e.CacheMark? }
  predicate IsCooldown(e: Event) { e.Cooldown? }

  /** An output row, in any of the three csv streams. */
  predicate IsRow(e: Event) { e.FoundRow? || e.MissingRow? || e.ErrorRow? }

  function Count(es: seq<Event>, p: Event -> bool): (n: nat)
    ensures n <= |es|
    ensures n == 0 <==> forall i :: 0 <= i < |es| ==> !p(es[i])
  {
    if es == [] then 0 else (if p(es[0]) then 1 else 0) + Count(es[1..], p)
  }

  lemma {:induction false} CountConcat(a: seq<Event>, b: seq<Event>, p: Event -> bool)
    ensures Count(a + b, p) == Count(a, p) + Count(b, p)
  {
    if a != [] {
      assert (a + b)[1..] == a[1..] + b;
      CountConcat(a[1..], b, p);
    } else {
      assert a + b == b;
    }
  }

  // ---------------------------------------------------------------------
  // One package in one region

  /** What the loop body does with a pair that is not cached, after the
      request: the row(s) and, for 200 and 404, the cache update. */
  function Handle(env: Env, st: State, pkg: string, region: string, url: string, resp: Response)
    : (o: Outcome)
  {
    if resp.status == 200 || resp.status == 404 then
      var rows :=
        if resp.status == 200 then
          var info := Extract(env.parse(resp.text));
          [FoundRow(pkg, region, info.rating, info.reviews, info.downloads, info.lastUpdated),
           SaveHtml(HtmlPath(env.prefix, pkg, region), resp.text)]
        else
          [MissingRow(pkg, region, resp.status, url)];
      var (log', cache') := Add(st.log, st.cache, pkg, region);
      Outcome(State(cache', log', st.sent), rows + [CacheMark(pkg, region)])
    else
      var pause := if resp.status == 429 then [Cooldown(CooldownSeconds)] else [];
      Outcome(st, pause + [ErrorRow(pkg, region, resp.status, url)])
  }

  /** One iteration of the region loop. A cached pair is skipped without a
      trace. Otherwise the English page for the region is requested, the
      pair is cached exactly for 200 and 404, and one delay closes the
      iteration. */
  function FetchRegion(env: Env, st: State, pkg: string, region: string): (o: Outcome)
    ensures IsCached(st.cache, pkg, region) ==> o == Outcome(st, [])
    ensures !IsCached(st.cache, pkg, region) ==>
              var url := FormUrl(pkg, Language, region);
              var resp := env.respond(st.sent, url);
              && o.state.sent == st.sent + 1
              && |o.events| >= 3 && o.events[0] == Request(url) && o.events[|o.events| - 1] == Delay
              && (IsCached(o.state.cache, pkg, region) <==> resp.status == 200 || resp.status == 404)
    ensures forall p, r :: p != pkg || r != region ==> (IsCached(o.state.cache, p, r) <==> IsCached(st.cache, p, r))
  {
    if IsCached(st.cache, pkg, region) then Outcome(st, [])
    else
      var url := FormUrl(pkg, Language, region);
      var resp := env.respond(st.sent, url);
      var h := Handle(env, st.(sent := st.sent + 1), pkg, region, url, resp);
      HandleCounts(env, st.(sent := st.sent + 1), pkg, region, url, resp);
      Outcome(h.state, [Request(url)] + h.events + [Delay])
  }

  /** An iteration sends one request, writes exactly one row, in one of the
      three csv streams, and sleeps once, unless it is skipped, in which
      case it does none of these. */
  lemma FetchRegionCounts(env: Env, st: State, pkg: string, region: string)
    ensures var o := FetchRegion(env, st, pkg, region);
            && o.state.sent == st.sent + (if IsCached(st.cache, pkg, region) then 0 else 1)
            && Count(o.events, IsRequest) == o.state.sent - st.sent
            && Count(o.events, IsDelay) == o.state.sent - st.sent
            && Count(o.events, IsRow) == o.state.sent - st.sent
  {
    if IsCached(st.cache, pkg, region) { return; }
    var url := FormUrl(pkg, Language, region);
    var resp := env.respond(st.sent, url);
    var h := Handle(env, st.(sent := st.sent + 1), pkg, region, url, resp);
    HandleCounts(env, st.(sent := st.sent + 1), pkg, region, url, resp);
    FetchRegionUnfold(env, st, pkg, region);
    FrameCount(url, h.events, IsRequest);
    FrameCount(url, h.events, IsDelay);
    FrameCount(url, h.events, IsRow);
  }

  lemma FrameCount(url: string, h: seq<Event>, p: Event -> bool)
    ensures Count([Request(url)] + h + [Delay], p)
            == (if p(Request(url)) then 1 else 0) + Count(h, p) + (if p(Delay) then 1 else 0)
  {
    CountConcat([Request(url)] + h, [Delay], p);
    CountConcat([Request(url)], h, p);
  }

  /** The body of an iteration writes one row, no request and no delay,
      and caches its pair exactly for 200 and 404. */
  lemma HandleCounts(env: Env, st: State, pkg: string, region: string, url: string, resp: Response)
    requires !IsCached(st.cache, pkg, region)
    ensures var o := Handle(env, st, pkg, region, url, resp);
            && o.state.sent == st.sent
            && Count(o.events, IsRequest) == 0 && Count(o.events, IsDelay) == 0
            && Count(o.events, IsRow) == 1
            && (IsCached(o.state.cache, pkg, region) <==> resp.status == 200 || resp.status == 404)
            && (forall p, r :: p != pkg || r != region ==>
                  (IsCached(o.state.cache, p, r) <==> IsCached(st.cache, p, r)))
  {
    var o := Handle(env, st, pkg, region, url, resp);
    if resp.status == 200 {
      var es := o.events;
      assert es[1..][1..][1..] == [];
    } else if resp.status == 404 {
      var es := o.events;
      assert es[1..][1..] == [];
    } else if resp.status == 429 {
      var es := o.events;
      assert es[1..][1..] == [];
    } else {
      var es := o.events;
      assert es[1..] == [];
    }
  }

  /** The whole trace of an iteration on a 200 answer: the request, the
      found row with the extracted values in the csv's column order (rating,
      reviews, downloads, last update), the raw HTML, the cache row, the
      delay; the pair is added to the cache as `add_package_to_cache` does. */
  lemma FoundTrace(env: Env, st: State, pkg: string, region: string)
    requires !IsCached(st.cache, pkg, region)
    requires env.respond(st.sent, FormUrl(pkg, Language, region)).status == 200
    ensures var url := FormUrl(pkg, Language, region);
            var resp := env.respond(st.sent, url);
            var o := FetchRegion(env, st, pkg, region);
            var info := Extract(env.parse(resp.text));
            && o.events == [Request(url),
                            FoundRow(pkg, region, info.rating, info.reviews, info.downloads, info.lastUpdated),
                            SaveHtml(HtmlPath(env.prefix, pkg, region), resp.text),
                            CacheMark(pkg, region), Delay]
            && (o.state.log, o.state.cache) == Add(st.log, st.cache, pkg, region)
  {
    var url := FormUrl(pkg, Language, region);
    var resp := env.respond(st.sent, url);
    var h := Handle(env, st.(sent := st.sent + 1), pkg, region, url, resp);
    FetchRegionUnfold(env, st, pkg, region);
    var info := Extract(env.parse(resp.text));
    var hs := [FoundRow(pkg, region, info.rating, info.reviews, info.downloads, info.lastUpdated),
               SaveHtml(HtmlPath(env.prefix, pkg, region), resp.text), CacheMark(pkg, region)];
    assert h.events == hs;
    Framed3(Request(url), hs[0], hs[1], hs[2], Delay);
  }

  /** On a 404: the request, the missing row with the status and the
      address, the cache row, the delay; the pair is cached so that it is
      not asked for again. */
  lemma MissingTrace(env: Env, st: State, pkg: string, region: string)
    requires !IsCached(st.cache, pkg, region)
    requires env.respond(st.sent, FormUrl(pkg, Language, region)).status == 404
    ensures var url := FormUrl(pkg, Language, region);
            var o := FetchRegion(env, st, pkg, region);
            && o.events == [Request(url), MissingRow(pkg, region, 404, url), CacheMark(pkg, region), Delay]
            && (o.state.log, o.state.cache) == Add(st.log, st.cache, pkg, region)
  {
    var url := FormUrl(pkg, Language, region);
    var resp := env.respond(st.sent, url);
    var h := Handle(env, st.(sent := st.sent + 1), pkg, region, url, resp);
    FetchRegionUnfold(env, st, pkg, region);
    var hs := [MissingRow(pkg, region, 404, url), CacheMark(pkg, region)];
    assert h.events == hs;
    Framed2(Request(url), hs[0], hs[1], Delay);
  }

  /** On a 429: the request, an hour's pause, the error row, the delay; the
      cache and its log are untouched, so the pair is retried by a rerun. */
  lemma CooldownTrace(env: Env, st: State, pkg: string, region: string)
    requires !IsCached(st.cache, pkg, region)
    requires env.respond(st.sent, FormUrl(pkg, Language, region)).status == 429
    ensures var url := FormUrl(pkg, Language, region);
            var o := FetchRegion(env, st, pkg, region);
            && o.events == [Request(url), Cooldown(CooldownSeconds), ErrorRow(pkg, region, 429, url), Delay]
            && o.state.cache == st.cache && o.state.log == st.log
  {
    var url := FormUrl(pkg, Language, region);
    var resp := env.respond(st.sent, url);
    var h := Handle(env, st.(sent := st.sent + 1), pkg, region, url, resp);
    FetchRegionUnfold(env, st, pkg, region);
    var hs := [Cooldown(CooldownSeconds), ErrorRow(pkg, region, 429, url)];
    assert h.events == hs;
    Framed2(Request(url), hs[0], hs[1], Delay);
  }

  /** On any other status: the request, the error row with the status and
      the address, the delay, with no pause; the cache is untouched. */
  lemma ErrorTrace(env: Env, st: State, pkg: string, region: string)
    requires !IsCached(st.cache, pkg, region)
    requires var status := env.respond(st.sent, FormUrl(pkg, Language, region)).status;
             status != 200 && status != 404 && status != 429
    ensures var url := FormUrl(pkg, Language, region);
            var resp := env.respond(st.sent, url);
            var o := FetchRegion(env, st, pkg, region);
            && o.events == [Request(url), ErrorRow(pkg, region, resp.status, url), Delay]
            && o.state.cache == st.cache && o.state.log == st.log
  {
    var url := FormUrl(pkg, Language, region);
    var resp := env.respond(st.sent, url);
    var h := Handle(env, st.(sent := st.sent + 1), pkg, region, url, resp);
    FetchRegionUnfold(env, st, pkg, region);
    var hs := [ErrorRow(pkg, region, resp.status, url)];
    assert h.events == hs;
    Framed1(Request(url), hs[0], Delay);
  }

  lemma Framed1<T>(a: T, x: T, z: T)
    ensures [a] + [x] + [z] == [a, x, z]
  {
  }

  lemma Framed2<T>(a: T, x: T, y: T, z: T)
    ensures [a] + [x, y] + [z] == [a, x, y, z]
  {
  }

  lemma Framed3<T>(a: T, x: T, y: T, w: T, z: T)
    ensures [a] + [x, y, w] + [z] == [a, x, y, w, z]
  {
  }

  lemma FetchRegionUnfold(env: Env, st: State, pkg: string, region: string)
    requires !IsCached(st.cache, pkg, region)
    ensures var url := FormUrl(pkg, Language, region);
            var h := Handle(env, st.(sent := st.sent + 1), pkg, region, url, env.respond(st.sent, url));
            FetchRegion(env, st, pkg, region) == Outcome(h.state, [Request(url)] + h.events + [Delay])
  {
  }

  // ---------------------------------------------------------------------
  // One package across regions

  /** Some error row was written for the pair. */
  predicate ErrorFor(es: seq<Event>, pkg: string, region: string) {
    exists i :: 0 <= i < |es| && IsError(es[i]) && es[i].pkg == pkg && es[i].region == region
  }

  /** `fetch_playstore_data_from_regions`: the regions in input order. The
      cache only grows, and only for this package's listed regions, and
      every listed region ends up cached or with an error row. */
  function FetchRegions(env: Env, st: State, pkg: string, regions: seq<string>): (o: Outcome)
    ensures o.state.sent >= st.sent
    ensures forall p, r :: IsCached(st.cache, p, r) ==> IsCached(o.state.cache, p, r)
    ensures forall p, r :: IsCached(o.state.cache, p, r) ==> IsCached(st.cache, p, r) || (p == pkg && r in regions)
    ensures forall r :: r in regions ==> IsCached(o.state.cache, pkg, r) || ErrorFor(o.events, pkg, r)
    decreases |regions|
  {
    if regions == [] then Outcome(st, [])
    else
      var first := FetchRegion(env, st, pkg, regions[0]);
      var rest := FetchRegions(env, first.state, pkg, regions[1..]);
      FirstRegionCovered(env, st, pkg, regions[0]);
      ErrorForConcat(first.events, rest.events);
      Outcome(rest.state, first.events + rest.events)
  }

  /** Every request is answered by exactly one row and followed by exactly
      one delay. */
  lemma {:induction false} FetchRegionsCounts(env: Env, st: State, pkg: string, regions: seq<string>)
    ensures var o := FetchRegions(env, st, pkg, regions);
            && Count(o.events, IsRequest) == o.state.sent - st.sent
            && Count(o.events, IsDelay) == o.state.sent - st.sent
            && Count(o.events, IsRow) == o.state.sent - st.sent
    decreases |regions|
  {
    if regions != [] {
      var first := FetchRegion(env, st, pkg, regions[0]);
      var rest := FetchRegions(env, first.state, pkg, regions[1..]);
      FetchRegionCounts(env, st, pkg, regions[0]);
      FetchRegionsCounts(env, first.state, pkg, regions[1..]);
      CountConcat(first.events, rest.events, IsRequest);
      CountConcat(first.events, rest.events, IsDelay);
      CountConcat(first.events, rest.events, IsRow);
    }
  }

  /** After one iteration its region is cached or has an error row. */
  lemma FirstRegionCovered(env: Env, st: State, pkg: string, region: string)
    ensures var o := FetchRegion(env, st, pkg, region);
            IsCached(o.state.cache, pkg, region) || ErrorFor(o.events, pkg, region)
  {
    if !IsCached(st.cache, pkg, region) {
      var es := FetchRegion(env, st, pkg, region).events;
      var status := env.respond(st.sent, FormUrl(pkg, Language, region)).status;
      if status == 200 {
        FoundTrace(env, st, pkg, region);
      } else if status == 404 {
        MissingTrace(env, st, pkg, region);
      } else if status == 429 {
        CooldownTrace(env, st, pkg, region);
        assert IsError(es[2]);
      } else {
        ErrorTrace(env, st, pkg, region);
        assert IsError(es[1]);
      }
    }
  }

  /** Error rows survive later output. */
  lemma ErrorForConcat(a: seq<Event>, b: seq<Event>)
    ensures forall p, r :: ErrorFor(a, p, r) ==> ErrorFor(a + b, p, r)
    ensures forall p, r :: ErrorFor(b, p, r) ==> ErrorFor(a + b, p, r)
  {
    forall p, r | ErrorFor(a, p, r)
      ensures ErrorFor(a + b, p, r)
    {
      var i :| 0 <= i < |a| && IsError(a[i]) && a[i].pkg == p && a[i].region == r;
      assert (a + b)[i] == a[i];
    }
    forall p, r | ErrorFor(b, p, r)
      ensures ErrorFor(a + b, p, r)
    {
      var i :| 0 <= i < |b| && IsError(b[i]) && b[i].pkg == p && b[i].region == r;
      assert (a + b)[|a| + i] == b[i];
    }
  }

  // ---------------------------------------------------------------------
  // Order of requests

  /** The addresses requested, in order. */
  function RequestUrls(es: seq<Event>): seq<string> {
    if es == [] then []
    else (if es[0].Request? then [es[0].url] else []) + RequestUrls(es[1..])
  }

  /** One address per request event. */
  lemma {:induction false} RequestUrlsCount(es: seq<Event>)
    ensures |RequestUrls(es)| == Count(es, IsRequest)
  {
    if es != [] {
      RequestUrlsCount(es[1..]);
    }
  }

  lemma {:induction false} RequestUrlsConcat(a: seq<Event>, b: seq<Event>)
    ensures RequestUrls(a + b) == RequestUrls(a) + RequestUrls(b)
  {
    if a != [] {
      var hd := if a[0].Request? then [a[0].url] else [];
      assert (a + b)[1..] == a[1..] + b;
      assert RequestUrls(a + b) == hd + RequestUrls(a[1..] + b);
      RequestUrlsConcat(a[1..], b);
      assert hd + (RequestUrls(a[1..]) + RequestUrls(b)) == (hd + RequestUrls(a[1..])) + RequestUrls(b);
    } else {
      assert a + b == b;
    }
  }

  /** The addresses of the listed regions not cached for the package, in
      list order. */
  function PlannedUrls(cache: Cache, pkg: string, regions: seq<string>): seq<string> {
    if regions == [] then []
    else
      (if IsCached(cache, pkg, regions[0]) then [] else [FormUrl(pkg, Language, regions[0])])
        + PlannedUrls(cache, pkg, regions[1..])
  }

  lemma {:induction false} PlannedUrlsAgree(c1: Cache, c2: Cache, pkg: string, regions: seq<string>)
    requires forall r :: r in regions ==> (IsCached(c1, pkg, r) <==> IsCached(c2, pkg, r))
    ensures PlannedUrls(c1, pkg, regions) == PlannedUrls(c2, pkg, regions)
  {
    if regions != [] {
      PlannedUrlsAgree(c1, c2, pkg, regions[1..]);
    }
  }

  /** One iteration requests its region's address, unless it is cached. */
  lemma FetchRegionUrls(env: Env, st: State, pkg: string, region: string)
    ensures RequestUrls(FetchRegion(env, st, pkg, region).events)
            == if IsCached(st.cache, pkg, region) then [] else [FormUrl(pkg, Language, region)]
  {
    if !IsCached(st.cache, pkg, region) {
      var url := FormUrl(pkg, Language, region);
      var resp := env.respond(st.sent, url);
      var h := Handle(env, st.(sent := st.sent + 1), pkg, region, url, resp);
      HandleCounts(env, st.(sent := st.sent + 1), pkg, region, url, resp);
      RequestUrlsCount(h.events);
      RequestUrlsConcat([Request(url)] + h.events, [Delay]);
      RequestUrlsConcat([Request(url)], h.events);
    }
  }

  /** The tail of a list of distinct regions is distinct and lacks the
      head. */
  lemma DistinctTail(regions: seq<string>)
    requires |regions| > 0
    requires forall i, j :: 0 <= i < j < |regions| ==> regions[i] != regions[j]
    ensures forall i, j :: 0 <= i < j < |regions[1..]| ==> regions[1..][i] != regions[1..][j]
    ensures regions[0] !in regions[1..]
  {
    forall i, j | 0 <= i < j < |regions[1..]|
      ensures regions[1..][i] != regions[1..][j]
    {
      assert regions[1..][i] == regions[i + 1] && regions[1..][j] == regions[j + 1];
    }
  }

  /** With distinct regions, exactly the regions not cached at the start
      are requested, once each, in input order, as English pages. */
  lemma {:induction false} RequestOrder(env: Env, st: State, pkg: string, regions: seq<string>)
    requires forall i, j :: 0 <= i < j < |regions| ==> regions[i] != regions[j]
    ensures RequestUrls(FetchRegions(env, st, pkg, regions).events) == PlannedUrls(st.cache, pkg, regions)
    decreases |regions|
  {
    if regions != [] {
      var first := FetchRegion(env, st, pkg, regions[0]);
      var rest := FetchRegions(env, first.state, pkg, regions[1..]);
      RequestUrlsConcat(first.events, rest.events);
      FetchRegionUrls(env, st, pkg, regions[0]);
      DistinctTail(regions);
      RequestOrder(env, first.state, pkg, regions[1..]);
      PlannedUrlsAgree(first.state.cache, st.cache, pkg, regions[1..]);
    }
  }

  /** A cache that holds more of the package's regions plans a part of the
      addresses: no new address and no more of them. */
  lemma {:induction false} PlannedUrlsShrink(c1: Cache, c2: Cache, pkg: string, regions: seq<string>)
    requires forall r :: r in regions && IsCached(c1, pkg, r) ==> IsCached(c2, pkg, r)
    ensures |PlannedUrls(c2, pkg, regions)| <= |PlannedUrls(c1, pkg, regions)|
    ensures forall u :: u in PlannedUrls(c2, pkg, regions) ==> u in PlannedUrls(c1, pkg, regions)
  {
    if regions != [] {
      PlannedUrlsShrink(c1, c2, pkg, regions[1..]);
    }
  }

  /** With any regions, repeats included, every requested address is the
      address of a listed region not cached at the start, and there are no
      more requests than such regions. A repeated region is requested again
      only if its first answer did not cache it. */
  lemma {:induction false} RequestsPlanned(env: Env, st: State, pkg: string, regions: seq<string>)
    ensures var urls := RequestUrls(FetchRegions(env, st, pkg, regions).events);
            && |urls| <= |PlannedUrls(st.cache, pkg, regions)|
            && forall u :: u in urls ==> u in PlannedUrls(st.cache, pkg, regions)
    decreases |regions|
  {
    if regions != [] {
      var first := FetchRegion(env, st, pkg, regions[0]);
      var rest := FetchRegions(env, first.state, pkg, regions[1..]);
      RequestUrlsConcat(first.events, rest.events);
      FetchRegionUrls(env, st, pkg, regions[0]);
      RequestsPlanned(env, first.state, pkg, regions[1..]);
      PlannedUrlsShrink(st.cache, first.state.cache, pkg, regions[1..]);
    }
  }

  /** The addresses planned for a whole listing: each package's in turn. */
  function AllPlanned(cache: Cache, pkgs: seq<string>, regions: seq<string>): seq<string> {
    if pkgs == [] then []
    else PlannedUrls(cache, pkgs[0], regions) + AllPlanned(cache, pkgs[1..], regions)
  }

  lemma {:induction false} AllPlannedAgree(c1: Cache, c2: Cache, pkgs: seq<string>, regions: seq<string>)
    requires forall p, r :: p in pkgs && r in regions ==> (IsCached(c1, p, r) <==> IsCached(c2, p, r))
    ensures AllPlanned(c1, pkgs, regions) == AllPlanned(c2, pkgs, regions)
  {
    if pkgs != [] {
      PlannedUrlsAgree(c1, c2, pkgs[0], regions);
      AllPlannedAgree(c1, c2, pkgs[1..], regions);
    }
  }

  lemma {:induction false} AllPlannedShrink(c1: Cache, c2: Cache, pkgs: seq<string>, regions: seq<string>)
    requires forall p, r :: p in pkgs && r in regions && IsCached(c1, p, r) ==> IsCached(c2, p, r)
    ensures |AllPlanned(c2, pkgs, regions)| <= |AllPlanned(c1, pkgs, regions)|
    ensures forall u :: u in AllPlanned(c2, pkgs, regions) ==> u in AllPlanned(c1, pkgs, regions)
  {
    if pkgs != [] {
      PlannedUrlsShrink(c1, c2, pkgs[0], regions);
      AllPlannedShrink(c1, c2, pkgs[1..], regions);
    }
  }

  // ---------------------------------------------------------------------
  // Skipping, resuming, and the cache log

  /** Every listed region is already cached for the package. */
  predicate AllCached(cache: Cache, pkg: string, regions: seq<string>) {
    forall r :: r in regions ==> IsCached(cache, pkg, r)
  }

  /** A fully cached package is skipped: no request, no row, no delay, no
      change. */
  lemma {:induction false} SkipCached(env: Env, st: State, pkg: string, regions: seq<string>)
    requires AllCached(st.cache, pkg, regions)
    ensures FetchRegions(env, st, pkg, regions) == Outcome(st, [])
    decreases |regions|
  {
    if regions != [] {
      SkipCached(env, st, pkg, regions[1..]);
      var none: seq<Event> := [];
      assert none + none == none;
    }
  }

  /** A network that answers every request with 200 or 404. */
  ghost predicate Settles(env: Env) {
    forall n: nat, u: string :: env.respond(n, u).status == 200 || env.respond(n, u).status == 404
  }

  /** When every answer is final, one pass caches every listed region, so a
      second pass over the same regions does nothing at all. */
  lemma Rerun(env: Env, again: Env, st: State, pkg: string, regions: seq<string>)
    requires Settles(env)
    ensures var o := FetchRegions(env, st, pkg, regions);
            FetchRegions(again, o.state, pkg, regions) == Outcome(o.state, [])
  {
    var o := FetchRegions(env, st, pkg, regions);
    NoErrorsWhenSettled(env, st, pkg, regions);
    SkipCached(again, o.state, pkg, regions);
  }

  lemma {:induction false} NoErrorsWhenSettled(env: Env, st: State, pkg: string, regions: seq<string>)
    requires Settles(env)
    ensures AllCached(FetchRegions(env, st, pkg, regions).state.cache, pkg, regions)
    decreases |regions|
  {
    if regions != [] {
      var first := FetchRegion(env, st, pkg, regions[0]);
      NoErrorsWhenSettled(env, first.state, pkg, regions[1..]);
      if !IsCached(st.cache, pkg, regions[0]) {
        var url := FormUrl(pkg, Language, regions[0]);
        assert env.respond(st.sent, url).status == 200 || env.respond(st.sent, url).status == 404;
      }
    }
  }

  /** The fields a pair puts in the ';'-separated cache log hold no ';'. */
  predicate LogSafe(pkg: string, regions: seq<string>) {
    ';' !in pkg && forall r :: r in regions ==> ';' !in r
  }

  /** The log on disk keeps reading back as the in-memory cache. */
  lemma {:induction false} FetchRegionsKeepsSync(env: Env, st: State, pkg: string, regions: seq<string>)
    requires InSync(st.log, st.cache) && LogSafe(pkg, regions)
    ensures var o := FetchRegions(env, st, pkg, regions); InSync(o.state.log, o.state.cache)
    decreases |regions|
  {
    if regions != [] {
      var first := FetchRegion(env, st, pkg, regions[0]);
      FetchRegionKeepsSync(env, st, pkg, regions[0]);
      FetchRegionsKeepsSync(env, first.state, pkg, regions[1..]);
    }
  }

  /** One iteration keeps the log and the map in sync: either neither
      changes, or both get the pair. */
  lemma FetchRegionKeepsSync(env: Env, st: State, pkg: string, region: string)
    requires InSync(st.log, st.cache) && ';' !in pkg && ';' !in region
    ensures var o := FetchRegion(env, st, pkg, region); InSync(o.state.log, o.state.cache)
  {
    if !IsCached(st.cache, pkg, region) {
      var status := env.respond(st.sent, FormUrl(pkg, Language, region)).status;
      if status == 200 {
        FoundTrace(env, st, pkg, region);
        AddKeepsSync(st.log, st.cache, pkg, region);
      } else if status == 404 {
        MissingTrace(env, st, pkg, region);
        AddKeepsSync(st.log, st.cache, pkg, region);
      } else if status == 429 {
        CooldownTrace(env, st, pkg, region);
      } else {
        ErrorTrace(env, st, pkg, region);
      }
    }
  }

  // ---------------------------------------------------------------------
  // The package loop of `main`

  /** The loop over the package listing: each package across all regions,
      in listing order, sharing one cache. The cache only grows, only for
      listed pairs, and every listed pair ends up cached or with an error
      row. */
  function FetchAll(env: Env, st: State, pkgs: seq<string>, regions: seq<string>): (o: Outcome)
    ensures o.state.sent >= st.sent
    ensures forall p, r :: IsCached(st.cache, p, r) ==> IsCached(o.state.cache, p, r)
    ensures forall p, r :: IsCached(o.state.cache, p, r) ==> IsCached(st.cache, p, r) || (p in pkgs && r in regions)
    ensures forall p, r :: p in pkgs && r in regions ==> IsCached(o.state.cache, p, r) || ErrorFor(o.events, p, r)
    decreases |pkgs|
  {
    if pkgs == [] then Outcome(st, [])
    else
      var first := FetchRegions(env, st, pkgs[0], regions);
      var rest := FetchAll(env, first.state, pkgs[1..], regions);
      ErrorForConcat(first.events, rest.events);
      Outcome(rest.state, first.events + rest.events)
  }

  /** Over the whole listing too, every request is answered by exactly one
      row and followed by exactly one delay. */
  lemma {:induction false} FetchAllCounts(env: Env, st: State, pkgs: seq<string>, regions: seq<string>)
    ensures var o := FetchAll(env, st, pkgs, regions);
            && Count(o.events, IsRequest) == o.state.sent - st.sent
            && Count(o.events, IsDelay) == o.state.sent - st.sent
            && Count(o.events, IsRow) == o.state.sent - st.sent
    decreases |pkgs|
  {
    if pkgs != [] {
      var first := FetchRegions(env, st, pkgs[0], regions);
      var rest := FetchAll(env, first.state, pkgs[1..], regions);
      FetchRegionsCounts(env, st, pkgs[0], regions);
      FetchAllCounts(env, first.state, pkgs[1..], regions);
      CountConcat(first.events, rest.events, IsRequest);
      CountConcat(first.events, rest.events, IsDelay);
      CountConcat(first.events, rest.events, IsRow);
    }
  }

  /** The log stays in sync with the map across the whole listing. */
  lemma {:induction false} FetchAllKeepsSync(env: Env, st: State, pkgs: seq<string>, regions: seq<string>)
    requires InSync(st.log, st.cache)
    requires forall p :: p in pkgs ==> LogSafe(p, regions)
    ensures var o := FetchAll(env, st, pkgs, regions); InSync(o.state.log, o.state.cache)
    decreases |pkgs|
  {
    if pkgs != [] {
      var first := FetchRegions(env, st, pkgs[0], regions);
      FetchRegionsKeepsSync(env, st, pkgs[0], regions);
      FetchAllKeepsSync(env, first.state, pkgs[1..], regions);
    }
  }

  /** When every answer is final, every listed pair ends up cached. */
  lemma {:induction false} AllCachedWhenSettled(env: Env, st: State, pkgs: seq<string>, regions: seq<string>)
    requires Settles(env)
    ensures var o := FetchAll(env, st, pkgs, regions);
            forall p :: p in pkgs ==> AllCached(o.state.cache, p, regions)
    decreases |pkgs|
  {
    if pkgs != [] {
      var first := FetchRegions(env, st, pkgs[0], regions);
      var rest := FetchAll(env, first.state, pkgs[1..], regions);
      NoErrorsWhenSettled(env, st, pkgs[0], regions);
      AllCachedWhenSettled(env, first.state, pkgs[1..], regions);
      assert FetchAll(env, st, pkgs, regions).state == rest.state;
      forall p | p in pkgs
        ensures AllCached(rest.state.cache, p, regions)
      {
        if p != pkgs[0] {
          assert p in pkgs[1..];
        }
      }
    }
  }

  /** With distinct packages and distinct regions, the whole run requests
      exactly the addresses of the pairs not cached at the start, once
      each, package by package and, within a package, region by region. */
  lemma {:induction false} FetchAllOrder(env: Env, st: State, pkgs: seq<string>, regions: seq<string>)
    requires forall i, j :: 0 <= i < j < |pkgs| ==> pkgs[i] != pkgs[j]
    requires forall i, j :: 0 <= i < j < |regions| ==> regions[i] != regions[j]
    ensures RequestUrls(FetchAll(env, st, pkgs, regions).events) == AllPlanned(st.cache, pkgs, regions)
    decreases |pkgs|
  {
    if pkgs != [] {
      var first := FetchRegions(env, st, pkgs[0], regions);
      var rest := FetchAll(env, first.state, pkgs[1..], regions);
      RequestUrlsConcat(first.events, rest.events);
      RequestOrder(env, st, pkgs[0], regions);
      DistinctTail(pkgs);
      FetchAllOrder(env, first.state, pkgs[1..], regions);
      AllPlannedAgree(first.state.cache, st.cache, pkgs[1..], regions);
    }
  }

  /** With any listing and any regions, repeats included, every requested
      address is planned at the start, and there are no more requests than
      planned addresses. */
  lemma {:induction false} FetchAllRequestsPlanned(env: Env, st: State, pkgs: seq<string>, regions: seq<string>)
    ensures var urls := RequestUrls(FetchAll(env, st, pkgs, regions).events);
            && |urls| <= |AllPlanned(st.cache, pkgs, regions)|
            && forall u :: u in urls ==> u in AllPlanned(st.cache, pkgs, regions)
    decreases |pkgs|
  {
    if pkgs != [] {
      var first := FetchRegions(env, st, pkgs[0], regions);
      var rest := FetchAll(env, first.state, pkgs[1..], regions);
      RequestUrlsConcat(first.events, rest.events);
      RequestsPlanned(env, st, pkgs[0], regions);
      FetchAllRequestsPlanned(env, first.state, pkgs[1..], regions);
      AllPlannedShrink(st.cache, first.state.cache, pkgs[1..], regions);
    }
  }

  /** A listing whose every pair is cached is passed over without a trace. */
  lemma {:induction false} SkipAll(env: Env, st: State, pkgs: seq<string>, regions: seq<string>)
    requires forall p :: p in pkgs ==> AllCached(st.cache, p, regions)
    ensures FetchAll(env, st, pkgs, regions) == Outcome(st, [])
    decreases |pkgs|
  {
    if pkgs != [] {
      SkipCached(env, st, pkgs[0], regions);
      SkipAll(env, st, pkgs[1..], regions);
      var none: seq<Event> := [];
      assert none + none == none;
    }
  }

  // ---------------------------------------------------------------------
  // `main`

  /** How a run ends: the input listing is missing (the message is printed
      and nothing else happens), the cache log has a row with fewer than two
      fields (the read raises), or the loop completes. */
  datatype Batch =
    | InputMissing(message: string)
    | CacheUnreadable(row: nat)
    | Completed(run: Outcome)

  const InputMissingMessage: string := "Could not find the input package listing file!"

  /** `main`: check the listing exists, read the package names, read the
      cache log, then run the package loop from a fresh request count. */
  function RunBatch(env: Env, input: Option<string>, log: Option<seq<string>>, regions: seq<string>): (b: Batch)
    ensures b.InputMissing? <==> input.None?
    ensures b.InputMissing? ==> b.message == InputMissingMessage
    ensures b.CacheUnreadable? <==> input.Some? && ReadLog(log).Failure?
    ensures b.CacheUnreadable? ==> log.Some? && b.row < |log.value| && !HasTwoFields(log.value[b.row])
    ensures b.Completed? ==>
              forall p, r :: p in ReadPackageNames(input.value) && r in regions ==>
                IsCached(b.run.state.cache, p, r) || ErrorFor(b.run.events, p, r)
    ensures b.Completed? ==>
              && Count(b.run.events, IsRequest) == b.run.state.sent
              && Count(b.run.events, IsRow) == b.run.state.sent
              && Count(b.run.events, IsDelay) == b.run.state.sent
  {
    if input.None? then InputMissing(InputMissingMessage)
    else
      match ReadLog(log)
      case Failure(k) => CacheUnreadable(k)
      case Success(cache) =>
        var st := State(cache, log, 0);
        var names := ReadPackageNames(input.value);
        FetchAllCounts(env, st, names, regions);
        Completed(FetchAll(env, st, names, regions))
  }

  /** No listed package name holds a ';', so the listing's pairs are safe
      for the log whenever the regions are. */
  lemma NamesLogSafe(input: string, regions: seq<string>)
    requires forall r :: r in regions ==> ';' !in r
    ensures forall p :: p in ReadPackageNames(input) ==> LogSafe(p, regions)
  {
    var names := ReadPackageNames(input);
    forall p | p in names
      ensures ';' !in p
    {
      var i :| 0 <= i < |names| && names[i] == p;
      assert p == PackageName(Lines(input)[i]);
    }
  }

  /** Resuming: when every answer of a run was final, running again on the
      same listing with the log it left finds every pair cached, and sends,
      writes and sleeps nothing. */
  lemma ResumeAfterSettled(env: Env, again: Env, input: string, log: Option<seq<string>>, regions: seq<string>)
    requires Settles(env)
    requires forall r :: r in regions ==> ';' !in r
    requires RunBatch(env, Some(input), log, regions).Completed?
    ensures var o := RunBatch(env, Some(input), log, regions).run;
            RunBatch(again, Some(input), o.state.log, regions)
              == Completed(Outcome(State(o.state.cache, o.state.log, 0), []))
  {
    var cache := ReadLog(log).value;
    var st := State(cache, log, 0);
    var names := ReadPackageNames(input);
    var o := FetchAll(env, st, names, regions);
    assert RunBatch(env, Some(input), log, regions).run == o;
    NamesLogSafe(input, regions);
    FetchAllKeepsSync(env, st, names, regions);
    AllCachedWhenSettled(env, st, names, regions);
    SkipAll(again, State(o.state.cache, o.state.log, 0), names, regions);
  }
}
