/** The news sitemap of src/pages/sitemap.xml.ts: the list of URLs built
    by the `for` loop over the published rows, the choice of `lastmod`, and
    the XML written from the list. The Directus request and the response
    headers are outside the model; `new Date(x).toISOString()` is the
    function `toIso`. */
module Sitemap {
  import opened Common
  import opened Text
  import opened Escape
  import opened Feed

  /** A row as the sitemap requests it; an absent or `null` field is `None`. */
  datatype MapRow = MapRow(
    slug: Option<string>,
    publishedAt: Option<string>,
    dateCreated: Option<string>,
    dateUpdated: Option<string>)

  /** One entry of `urls`. */
  datatype Url = Url(loc: string, lastmod: Option<string>)

  /** `it.published_at || it.date_updated || it.date_created || null`. */
  function LastSource(it: MapRow): (r: Option<string>)
    ensures Filled(it.publishedAt) ==> r == it.publishedAt
    ensures !Filled(it.publishedAt) && Filled(it.dateUpdated) ==> r == it.dateUpdated
    ensures !Filled(it.publishedAt) && !Filled(it.dateUpdated) && Filled(it.dateCreated) ==> r == it.dateCreated
    ensures !Filled(it.publishedAt) && !Filled(it.dateUpdated) && !Filled(it.dateCreated) ==> r.None?
  {
    if Filled(it.publishedAt) then it.publishedAt
    else if Filled(it.dateUpdated) then it.dateUpdated
    else if Filled(it.dateCreated) then it.dateCreated
    else None
  }

  /** The URL that a row with a slug pushes. */
  function UrlOf(site: string, it: MapRow, toIso: string -> string): Url
    requires Filled(it.slug)
  {
    var last := LastSource(it);
    Url(site + "/news/" + it.slug.value, if last.Some? then Some(toIso(last.value)) else None)
  }

  /** The URLs pushed for the rows, in order; rows without a slug push
      nothing. */
  function Entries(site: string, rows: seq<MapRow>, toIso: string -> string): seq<Url>
    decreases |rows|
  {
    if rows == [] then []
    else
      var last := rows[|rows| - 1];
      Entries(site, rows[..|rows| - 1], toIso) + (if Filled(last.slug) then [UrlOf(site, last, toIso)] else [])
  }

  /** The number of rows with a slug. */
  function SlugCount(rows: seq<MapRow>): nat
    decreases |rows|
  {
    if rows == [] then 0
    else SlugCount(rows[..|rows| - 1]) + (if Filled(rows[|rows| - 1].slug) then 1 else 0)
  }

  /** The listing page, without `lastmod`. */
  function ListingUrl(site: string): Url {
    Url(site + "/news", None)
  }

  /** The `for` loop that fills `urls`. */
  method BuildUrls(site: string, rows: seq<MapRow>, toIso: string -> string) returns (urls: seq<Url>)
    ensures urls == [ListingUrl(site)] + Entries(site, rows, toIso)
  {
    urls := [ListingUrl(site)];
    var n := 0;
    while n < |rows|
      invariant 0 <= n <= |rows|
      invariant urls == [ListingUrl(site)] + Entries(site, rows[..n], toIso)
    {
      var it := rows[n];
      assert rows[..n + 1][..n] == rows[..n];
      if Filled(it.slug) {
        var last := LastSource(it);
        urls := urls + [Url(site + "/news/" + it.slug.value, if last.Some? then Some(toIso(last.value)) else None)];
      }
      n := n + 1;
    }
    assert rows[..n] == rows;
  }

  /** One URL per row with a slug, after the listing page. */
  lemma {:induction false} EntriesCount(site: string, rows: seq<MapRow>, toIso: string -> string)
    ensures |Entries(site, rows, toIso)| == SlugCount(rows)
    ensures |[ListingUrl(site)] + Entries(site, rows, toIso)| == 1 + SlugCount(rows)
    decreases |rows|
  {
    if rows != [] {
      EntriesCount(site, rows[..|rows| - 1], toIso);
    }
  }

  /** The row at `i`, when it has a slug, gives the entry after those of the
      rows with a slug before it: the entries follow the input order. */
  lemma {:induction false} EntriesInOrder(site: string, rows: seq<MapRow>, toIso: string -> string, i: nat)
    requires i < |rows| && Filled(rows[i].slug)
    ensures SlugCount(rows[..i]) < |Entries(site, rows, toIso)|
    ensures Entries(site, rows, toIso)[SlugCount(rows[..i])] == UrlOf(site, rows[i], toIso)
    decreases |rows|
  {
    var init := rows[..|rows| - 1];
    EntriesCount(site, init, toIso);
    if i == |rows| - 1 {
      assert rows[..i] == init;
    } else {
      assert init[..i] == rows[..i];
      EntriesInOrder(site, init, toIso, i);
      EntriesCount(site, rows, toIso);
    }
  }

  /** The loc is the article page; lastmod comes from the publication date,
      else the update date, else the creation date, and is absent without
      any. */
  lemma UrlOfFacts(site: string, it: MapRow, toIso: string -> string)
    requires Filled(it.slug)
    ensures var u := UrlOf(site, it, toIso);
      u.loc == site + "/news/" + it.slug.value &&
      (u.lastmod.Some? <==> Filled(it.publishedAt) || Filled(it.dateUpdated) || Filled(it.dateCreated)) &&
      (Filled(it.publishedAt) ==> u.lastmod == Some(toIso(it.publishedAt.value))) &&
      (!Filled(it.publishedAt) && Filled(it.dateUpdated) ==> u.lastmod == Some(toIso(it.dateUpdated.value))) &&
      (!Filled(it.publishedAt) && !Filled(it.dateUpdated) && Filled(it.dateCreated) ==> u.lastmod == Some(toIso(it.dateCreated.value)))
  {
  }

  /** The list always starts with the listing page, without lastmod. */
  lemma UrlsStartWithListing(site: string, rows: seq<MapRow>, toIso: string -> string)
    ensures var urls := [ListingUrl(site)] + Entries(site, rows, toIso);
      urls[0].loc == site + "/news" && urls[0].lastmod.None?
  {
  }

  // -------------------------------------------------------------- writing

  const LocOpen := "<loc>"
  const LastmodOpen := "<lastmod>"

  /** The lines of one `<url>` block; the lastmod line only when it is set. */
  function UrlLines(u: Url): (ls: seq<string>)
    ensures |ls| == 4
  {
    ["  <url>\n",
     Line(LocOpen, EscapeXml(u.loc), "</loc>"),
     if Filled(u.lastmod) then Line(LastmodOpen, EscapeXml(u.lastmod.value), "</lastmod>") else "",
     "  </url>"]
  }

  function UrlBlock(u: Url): string {
    Concat(UrlLines(u))
  }

  /** The blocks of all URLs. */
  function UrlBlocks(urls: seq<Url>): (bs: seq<string>)
    ensures |bs| == |urls|
    ensures forall i :: 0 <= i < |urls| ==> bs[i] == UrlBlock(urls[i])
  {
    seq(|urls|, i requires 0 <= i < |urls| => UrlBlock(urls[i]))
  }

  /** The sitemap document: the blocks joined by newlines between the
      `<urlset>` lines. */
  function SitemapXml(urls: seq<Url>): string {
    "<?xml version=\"1.0\" encoding=\"UTF-8\"?>\n" +
    "<urlset xmlns=\"http://www.sitemaps.org/schemas/sitemap/0.9\">\n" +
    Join(UrlBlocks(urls), "\n") +
    "\n</urlset>\n"
  }

  /** The blocks of the first `i` URLs and those of the rest are separated
      by exactly one newline: the blocks follow the list's order. */
  lemma SitemapBlocksAt(urls: seq<Url>, i: nat)
    requires 0 < i < |urls|
    ensures Join(UrlBlocks(urls), "\n") == Join(UrlBlocks(urls[..i]), "\n") + "\n" + Join(UrlBlocks(urls[i..]), "\n")
  {
    var bs := UrlBlocks(urls);
    JoinAt(bs, "\n", i);
    assert bs[..i] == UrlBlocks(urls[..i]);
    assert bs[i..] == UrlBlocks(urls[i..]);
  }

  /** A reader of a `<url>` block finds after `<loc>` a value that decodes
      to the location. */
  lemma UrlBlockLoc(u: Url)
    ensures var b := UrlBlock(u);
      var p := ValueStart(UrlLines(u), 1, LocOpen);
      p <= |b| && b[p - |LocOpen|..p] == LocOpen && Unescape(ValueAt(b, p)) == u.loc
  {
    EscapeXmlSafe(u.loc);
    EscapeXmlRoundTrip(u.loc);
    PartReadBack(UrlLines(u), 1, LocOpen, EscapeXml(u.loc), "</loc>");
  }

  /** With a lastmod, a reader finds after `<lastmod>` a value that decodes
      to it; without one the block has no lastmod line. */
  lemma UrlBlockLastmod(u: Url)
    ensures Filled(u.lastmod) ==>
      var b := UrlBlock(u);
      var p := ValueStart(UrlLines(u), 2, LastmodOpen);
      p <= |b| && b[p - |LastmodOpen|..p] == LastmodOpen && Unescape(ValueAt(b, p)) == u.lastmod.value
    ensures !Filled(u.lastmod) ==> UrlBlock(u) == Concat([UrlLines(u)[0], UrlLines(u)[1], UrlLines(u)[3]])
  {
    if Filled(u.lastmod) {
      EscapeXmlSafe(u.lastmod.value);
      EscapeXmlRoundTrip(u.lastmod.value);
      PartReadBack(UrlLines(u), 2, LastmodOpen, EscapeXml(u.lastmod.value), "</lastmod>");
    } else {
      var ls := UrlLines(u);
      assert ls[2] == [];
      ConcatAround(ls, 2);
      assert ls[..2] == [ls[0], ls[1]] && ls[3..] == [ls[3]];
      ConcatAround([ls[0], ls[1], ls[3]], 2);
      assert [ls[0], ls[1], ls[3]][..2] == [ls[0], ls[1]] && [ls[0], ls[1], ls[3]][3..] == [];
    }
  }
}
