/** The field extractor of the current scraper, `get_app_info_from_html`:
    four locators, each read through the token filter, each defaulting to
    "Not Found" on its own.

    Parsing the page and evaluating the CSS selectors is abstracted away:
    a `Locators` value holds, for each selector in the order of the
    selector table, the text of the first node it selects, or `None` when
    it selects nothing. */
module Extractor {
  import opened Wrappers
  import opened Text
  import opened TokenFilter

  /** The default of every field. */
  const NotFound: string := "Not Found"

  /** Selector results, in the order of the selector table: star rating,
      download count, review count, last-updated time. */
  datatype Locators = Locators(
    starRating: Option<string>,
    downloadCount: Option<string>,
    reviewCount: Option<string>,
    lastUpdatedTime: Option<string>)

  /** The extractor's result, in the same order as the selector table
      (which is not the order the function's own documentation gives). */
  datatype AppInfo = AppInfo(rating: string, downloads: string, reviews: string, lastUpdated: string)

  /** A non-empty filter result always carries a digit. */
  lemma FilterHasDigit(text: string)
    requires FindAll(false, text) != []
    ensures HasDigit(Filter(text))
  {
    var ts := FindAll(false, text);
    RenderHasDigit(ts[0]);
    JoinStartsWithFirst(Renders(ts));
    var i :| 0 <= i < |Render(ts[0])| && IsDigit(Render(ts[0])[i]);
    assert Filter(text)[i] == Render(ts[0])[i];
  }

  /** The value of one field: the filtered text when the locator found a
      node and the filter kept something, "Not Found" otherwise. A found
      value is never mistaken for the default, and it is stable under the
      filter. */
  function FieldValue(text: Option<string>): (v: string)
    ensures v == NotFound <==> (text.None? || FindAll(false, text.value) == [])
    ensures v != NotFound ==> v == Filter(text.value) && HasDigit(v) && Filter(v) == v
  {
    if text.None? then NotFound
    else
      FilterEmptyIff(text.value);
      var f := Filter(text.value);
      if f == "" then NotFound
      else
        FilterHasDigit(text.value);
        assert !HasDigit(NotFound);
        FilterIdempotent(text.value);
        f
  }

  /** `get_app_info_from_html`: every field comes from its own locator
      only, and is "Not Found" exactly when that locator selects nothing or
      its text holds no match. */
  function Extract(loc: Locators): (info: AppInfo)
    ensures info.rating == NotFound
            <==> (loc.starRating.None? || FindAll(false, loc.starRating.value) == [])
    ensures info.downloads == NotFound
            <==> (loc.downloadCount.None? || FindAll(false, loc.downloadCount.value) == [])
    ensures info.reviews == NotFound
            <==> (loc.reviewCount.None? || FindAll(false, loc.reviewCount.value) == [])
    ensures info.lastUpdated == NotFound
            <==> (loc.lastUpdatedTime.None? || FindAll(false, loc.lastUpdatedTime.value) == [])
    ensures info.rating != NotFound ==> info.rating == Filter(loc.starRating.value)
    ensures info.downloads != NotFound ==> info.downloads == Filter(loc.downloadCount.value)
    ensures info.reviews != NotFound ==> info.reviews == Filter(loc.reviewCount.value)
    ensures info.lastUpdated != NotFound ==> info.lastUpdated == Filter(loc.lastUpdatedTime.value)
  {
    AppInfo(
      FieldValue(loc.starRating),
      FieldValue(loc.downloadCount),
      FieldValue(loc.reviewCount),
      FieldValue(loc.lastUpdatedTime))
  }

  /** Fields do not influence each other: changing what one locator selects
      changes no other field. */
  lemma FieldsIndependent(a: Locators, b: Locators)
    ensures a.starRating == b.starRating ==> Extract(a).rating == Extract(b).rating
    ensures a.downloadCount == b.downloadCount ==> Extract(a).downloads == Extract(b).downloads
    ensures a.reviewCount == b.reviewCount ==> Extract(a).reviews == Extract(b).reviews
    ensures a.lastUpdatedTime == b.lastUpdatedTime ==> Extract(a).lastUpdated == Extract(b).lastUpdated
  {
  }

  /** A page where no selector matches gives the default everywhere. */
  lemma NothingSelected()
    ensures Extract(Locators(None, None, None, None)) == AppInfo(NotFound, NotFound, NotFound, NotFound)
  {
  }

  /** Locator texts that are already single tokens come back unchanged, in
      table order. */
  lemma ExtractKeepsTokens(rating: Token, downloads: Token, reviews: Token, updated: Token)
    requires WellFormed(rating) && WellFormed(downloads) && WellFormed(reviews) && WellFormed(updated)
    ensures Extract(Locators(Some(Render(rating)), Some(Render(downloads)),
                             Some(Render(reviews)), Some(Render(updated))))
            == AppInfo(Render(rating), Render(downloads), Render(reviews), Render(updated))
  {
    FilterKeepsToken(rating);
    FilterKeepsToken(downloads);
    FilterKeepsToken(reviews);
    FilterKeepsToken(updated);
    FilterEmptyIff(Render(rating));
    FilterEmptyIff(Render(downloads));
    FilterEmptyIff(Render(reviews));
    FilterEmptyIff(Render(updated));
    RenderHasDigit(rating);
    RenderHasDigit(downloads);
    RenderHasDigit(reviews);
    RenderHasDigit(updated);
  }
}
