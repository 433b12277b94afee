/** The RSS 2.0 news feed of src/pages/rss.xml.ts: what each published news
    row contributes to its `<item>`, how the item is written out, and the
    feed around the items. The Directus request, the response headers and
    the date conversions are outside the model: the rows are an argument,
    `new Date(x).toUTCString()` is the function `toUtc` and the current time
    is the string `now`. The feed escaper is modelled twice, as written and
    corrected (see `Escaper`). */
module Feed {
  import opened Common
  import opened Text
  import opened Escape
  import Directus

  const DefaultSite := "https://radioabf.com"

  /** `import.meta.env.SITE || "https://radioabf.com"`. */
  function SiteOf(env: Option<string>): (site: string)
    ensures env.Some? && env.value != [] ==> site == env.value
    ensures env.None? || env.value == [] ==> site == DefaultSite
  {
    if env.Some? && env.value != [] then env.value else DefaultSite
  }

  /** A row of the news collection as the feed requests it; an absent or
      `null` optional field is `None`. */
  datatype NewsRow = NewsRow(
    title: string,
    slug: string,
    excerpt: Option<string>,
    cover: Option<string>,
    publishedAt: Option<string>,
    dateCreated: Option<string>)

  /** An optional string field that JavaScript finds truthy. */
  predicate Filled(f: Option<string>) {
    f.Some? && f.value != []
  }

  /** `resp?.data ?? []`. */
  function RowsOf(data: Option<seq<NewsRow>>): (rows: seq<NewsRow>)
    ensures data.Some? ==> rows == data.value
    ensures data.None? ==> rows == []
  {
    if data.Some? then data.value else []
  }

  /** `it.published_at || it.date_created || null`. */
  function PubSource(it: NewsRow): (r: Option<string>)
    ensures Filled(it.publishedAt) ==> r == it.publishedAt
    ensures !Filled(it.publishedAt) && Filled(it.dateCreated) ==> r == it.dateCreated
    ensures !Filled(it.publishedAt) && !Filled(it.dateCreated) ==> r.None?
    ensures r.Some? ==> r.value != []
  {
    if Filled(it.publishedAt) then it.publishedAt
    else if Filled(it.dateCreated) then it.dateCreated
    else None
  }

  /** The options the feed asks of `directusAsset` for a cover. */
  const CoverOptions := Directus.AssetOptions(Some(1200), Some(630), Some(Directus.Cover), Some(85))

  /** What the feed is built from besides the rows: the site URL, the
      Directus URL, the channel's title and description and the cover image
      options. */
  datatype Channel = Channel(site: string, base: string, title: string, description: string, cover: Directus.AssetOptions)

  const FeedTitle := "RadioABF \U{E2}\U{20AC}\U{201D} News"
  const FeedDescription := "Latest updates from RadioABF."

  /** The radio's channel: its fixed title, description and cover size. */
  function RadioChannel(site: string, base: string): (ch: Channel)
    ensures ch.site == site && ch.base == base
  {
    Channel(site, base, FeedTitle, FeedDescription, CoverOptions)
  }

  /** What one row puts into its `<item>`: the values before escaping. */
  datatype Item = Item(
    title: string,
    link: string,
    pubDate: string,
    description: Option<string>,
    enclosure: Option<string>)

  function NewsLink(site: string, slug: string): string {
    site + "/news/" + slug
  }

  /** The body of the `items.map` callback, before the text is written. */
  function ItemOf(ch: Channel, it: NewsRow, toUtc: string -> string, now: string): Item {
    var pub := PubSource(it);
    var img := if Filled(it.cover) then Directus.DirectusAsset(ch.base, it.cover, Some(ch.cover)) else "";
    Item(
      it.title,
      NewsLink(ch.site, it.slug),
      if pub.Some? then toUtc(pub.value) else now,
      if Filled(it.excerpt) then Some(it.excerpt.value) else None,
      if img != [] then Some(img) else None)
  }

  /** The link is the article's page; the description is the excerpt exactly
      when there is one; the enclosure needs a cover and a configured Directus
      URL; the date is the publication date, else the creation date, else
      now. */
  lemma ItemOfFacts(ch: Channel, it: NewsRow, toUtc: string -> string, now: string)
    ensures var x := ItemOf(ch, it, toUtc, now);
      x.title == it.title &&
      x.link == ch.site + "/news/" + it.slug &&
      (x.description.Some? <==> Filled(it.excerpt)) &&
      (x.description.Some? ==> x.description.value == it.excerpt.value) &&
      (x.enclosure.Some? <==> Filled(it.cover) && ch.base != []) &&
      (x.enclosure.Some? ==> x.enclosure.value == Directus.DirectusAsset(ch.base, it.cover, Some(ch.cover))) &&
      (Filled(it.publishedAt) ==> x.pubDate == toUtc(it.publishedAt.value)) &&
      (!Filled(it.publishedAt) && Filled(it.dateCreated) ==> x.pubDate == toUtc(it.dateCreated.value)) &&
      (!Filled(it.publishedAt) && !Filled(it.dateCreated) ==> x.pubDate == now)
  {
    if Filled(it.cover) && ch.base != [] {
      var u := Directus.DirectusAsset(ch.base, it.cover, Some(ch.cover));
      assert |u| >= |ch.base| > 0;
    }
  }

  // ------------------------------------------------------------- escaping

  /** `AsWritten` is the feed's own `escapeXml`, which turns `>` into `&lt;`;
      `Corrected` turns it into `&gt;`, as the sitemap's copy does. */
  datatype Escaper = AsWritten | Corrected

  function Esc(e: Escaper, s: string): string {
    match e
    case AsWritten => RssEscapeXml(s)
    case Corrected => EscapeXml(s)
  }

  /** What a reader decoding the entities gets back from `Esc(e, s)`. */
  function Decoded(e: Escaper, s: string): string {
    match e
    case AsWritten => MapChars(s, GtAsLt)
    case Corrected => s
  }

  /** Both escapers leave no raw `<`, `>` or `"`, and decoding gives
      `Decoded`: the text itself for the corrected one. */
  lemma EscFacts(e: Escaper, s: string)
    ensures '<' !in Esc(e, s) && '>' !in Esc(e, s) && '"' !in Esc(e, s)
    ensures Unescape(Esc(e, s)) == Decoded(e, s)
    ensures e == Corrected || '>' !in s ==> Unescape(Esc(e, s)) == s
  {
    match e
    case AsWritten =>
      RssEscapeXmlSafe(s);
      RssEscapeXmlDecodes(s);
    case Corrected =>
      EscapeXmlSafe(s);
      EscapeXmlRoundTrip(s);
  }

  // -------------------------------------------------------------- writing

  /** One element on its own indented line. */
  function Line(open: string, v: string, close: string): string {
    "    " + open + v + close + "\n"
  }

  const ItemOpen := "  <item>\n"
  const ItemClose := "  </item>\n"
  const TitleOpen := "<title>"
  const LinkOpen := "<link>"
  const GuidOpen := "<guid isPermaLink=\"true\">"
  const DateOpen := "<pubDate>"

  /** The description line, excerpt in CDATA and not escaped, when there is
      an excerpt. */
  function DescriptionLine(d: Option<string>): string {
    if d.Some? then "    <description><![CDATA[" + d.value + "]]></description>\n" else ""
  }

  /** The enclosure line, when there is a cover URL. */
  function EnclosureLine(e: Escaper, u: Option<string>): string {
    if u.Some? then "    <enclosure url=\"" + Esc(e, u.value) + "\" type=\"image/jpeg\" />\n" else ""
  }

  /** The parts of a document, written one after the other. */
  function Concat(parts: seq<string>): string
    decreases |parts|
  {
    if parts == [] then [] else parts[0] + Concat(parts[1..])
  }

  lemma {:induction false} ConcatAppend(a: seq<string>, b: seq<string>)
    ensures Concat(a + b) == Concat(a) + Concat(b)
    decreases |a|
  {
    if a != [] {
      assert (a + b)[0] == a[0];
      assert (a + b)[1..] == a[1..] + b;
      ConcatAppend(a[1..], b);
      calc {
        Concat(a + b);
        a[0] + Concat(a[1..] + b);
        a[0] + (Concat(a[1..]) + Concat(b));
        (a[0] + Concat(a[1..])) + Concat(b);
      }
    } else {
      assert a + b == b;
    }
  }

  /** A document is the parts before one part, that part and the parts
      after it. */
  lemma {:induction false} ConcatAround(parts: seq<string>, i: nat)
    requires i < |parts|
    ensures Concat(parts) == Concat(parts[..i]) + parts[i] + Concat(parts[i + 1..])
    decreases i
  {
    if i == 0 {
      assert parts[..0] == [];
      assert Concat(parts[..0]) == [];
    } else {
      var tail := parts[1..];
      ConcatAround(tail, i - 1);
      assert tail[i - 1] == parts[i];
      assert tail[i..] == parts[i + 1..];
      assert parts[..i][0] == parts[0];
      assert parts[..i][1..] == tail[..i - 1];
      calc {
        Concat(parts);
        parts[0] + Concat(tail);
        parts[0] + (Concat(tail[..i - 1]) + parts[i] + Concat(parts[i + 1..]));
        (parts[0] + Concat(tail[..i - 1])) + parts[i] + Concat(parts[i + 1..]);
        Concat(parts[..i]) + parts[i] + Concat(parts[i + 1..]);
      }
    }
  }

  /** The lines of one item, in order. */
  function ItemLines(e: Escaper, x: Item): (ls: seq<string>)
    ensures |ls| == 8
    ensures ls[0] == ItemOpen && ls[7] == ItemClose
    ensures ls[5] == [] <==> x.description.None?
    ensures ls[6] == [] <==> x.enclosure.None?
    ensures x.description.Some? ==> |ls[5]| == 44 + |x.description.value| && ls[5][26..26 + |x.description.value|] == x.description.value
  {
    [ItemOpen,
     Line(TitleOpen, Esc(e, x.title), "</title>"),
     Line(LinkOpen, Esc(e, x.link), "</link>"),
     Line(GuidOpen, Esc(e, x.link), "</guid>"),
     Line(DateOpen, Esc(e, x.pubDate), "</pubDate>"),
     DescriptionLine(x.description),
     EnclosureLine(e, x.enclosure),
     ItemClose]
  }

  function RenderItem(e: Escaper, x: Item): string {
    Concat(ItemLines(e, x))
  }

  predicate IsLt(c: char) {
    c == '<'
  }

  /** The text of an element whose value starts at `p`: everything up to the
      next `<`. */
  function ValueAt(b: string, p: nat): string
    requires p <= |b|
  {
    b[p..RunUntil(b, p, IsLt)]
  }

  /** A value without `<` written on a line reads back from that line. */
  lemma LineReadBack(pre: string, open: string, v: string, close: string, post: string)
    requires '<' !in v && close != [] && close[0] == '<'
    ensures var b := pre + Line(open, v, close) + post;
      var p := |pre| + 4 + |open|;
      p <= |b| && b[p - |open|..p] == open && ValueAt(b, p) == v
  {
    var b := pre + Line(open, v, close) + post;
    var p := |pre| + 4 + |open|;
    assert b == pre + "    " + open + v + (close + "\n" + post);
    assert b[p - |open|..p] == open;
    assert b[p + |v|] == close[0];
    forall k | p <= k < p + |v| ensures !IsLt(b[k]) {
      assert b[k] == v[k - p];
    }
    RunUntilAt(b, p, p + |v|, IsLt);
    assert b[p..p + |v|] == v;
  }

  /** A value without `<` that is followed by a part starting with `<`
      reads back from the written document. */
  lemma PieceReadBack(ls: seq<string>, i: nat)
    requires i + 1 < |ls| && '<' !in ls[i] && ls[i + 1] != [] && ls[i + 1][0] == '<'
    ensures var b := Concat(ls);
      |Concat(ls[..i])| <= |b| && ValueAt(b, |Concat(ls[..i])|) == ls[i]
  {
    var b := Concat(ls);
    var pre, v := Concat(ls[..i]), ls[i];
    var rest := ls[i + 1..];
    ConcatAround(ls, i);
    assert rest[0] == ls[i + 1];
    assert Concat(rest) == rest[0] + Concat(rest[1..]);
    var p := |pre|;
    assert b == pre + v + Concat(rest);
    assert b[p + |v|] == '<';
    forall k | p <= k < p + |v| ensures !IsLt(b[k]) {
      assert b[k] == v[k - p];
    }
    RunUntilAt(b, p, p + |v|, IsLt);
    assert b[p..p + |v|] == v;
  }

  /** Where the value of the element on line `i` of a document starts. */
  function ValueStart(ls: seq<string>, i: nat, open: string): nat
    requires i <= |ls|
  {
    |Concat(ls[..i])| + 4 + |open|
  }

  /** Line `i` of a document holds `open`, the value `v` and a closing tag:
      the value reads back from the written document. */
  lemma PartReadBack(ls: seq<string>, i: nat, open: string, v: string, close: string)
    requires i < |ls| && ls[i] == Line(open, v, close)
    requires '<' !in v && close != [] && close[0] == '<'
    ensures var b := Concat(ls);
      var p := ValueStart(ls, i, open);
      p <= |b| && b[p - |open|..p] == open && ValueAt(b, p) == v
  {
    ConcatAround(ls, i);
    LineReadBack(Concat(ls[..i]), open, v, close, Concat(ls[i + 1..]));
  }

  /** A reader of the written item finds, after `<title>`, a value that
      decodes to the title: with the corrected escaper, the title itself. */
  lemma RenderItemTitle(e: Escaper, x: Item)
    ensures var b := RenderItem(e, x);
      var t := ValueStart(ItemLines(e, x), 1, TitleOpen);
      t <= |b| && b[t - |TitleOpen|..t] == TitleOpen && Unescape(ValueAt(b, t)) == Decoded(e, x.title)
  {
    ValueLines(e, x);
    EscFacts(e, x.title);
    PartReadBack(ItemLines(e, x), 1, TitleOpen, Esc(e, x.title), "</title>");
  }

  /** After `<link>` a reader finds a value that decodes to the link: with
      the corrected escaper, the article link itself. */
  lemma RenderItemLink(e: Escaper, x: Item)
    ensures var b := RenderItem(e, x);
      var l := ValueStart(ItemLines(e, x), 2, LinkOpen);
      l <= |b| && b[l - |LinkOpen|..l] == LinkOpen && Unescape(ValueAt(b, l)) == Decoded(e, x.link)
  {
    ValueLines(e, x);
    EscFacts(e, x.link);
    PartReadBack(ItemLines(e, x), 2, LinkOpen, Esc(e, x.link), "</link>");
  }

  /** After `<guid isPermaLink="true">` a reader finds the same value as
      after `<link>`. */
  lemma RenderItemGuid(e: Escaper, x: Item)
    ensures var b := RenderItem(e, x);
      var g := ValueStart(ItemLines(e, x), 3, GuidOpen);
      g <= |b| && b[g - |GuidOpen|..g] == GuidOpen && Unescape(ValueAt(b, g)) == Decoded(e, x.link)
  {
    ValueLines(e, x);
    EscFacts(e, x.link);
    PartReadBack(ItemLines(e, x), 3, GuidOpen, Esc(e, x.link), "</guid>");
  }

  /** Lines 1 to 3 of an item hold its escaped title, link and guid. */
  lemma ValueLines(e: Escaper, x: Item)
    ensures ItemLines(e, x)[1] == Line(TitleOpen, Esc(e, x.title), "</title>")
    ensures ItemLines(e, x)[2] == Line(LinkOpen, Esc(e, x.link), "</link>")
    ensures ItemLines(e, x)[3] == Line(GuidOpen, Esc(e, x.link), "</guid>")
  {
  }

  /** Every written item is one block from `<item>` to `</item>`; the
      description and enclosure lines are empty when there is no excerpt or
      no cover URL. */
  lemma RenderItemBlock(e: Escaper, x: Item)
    ensures var b := RenderItem(e, x);
      |b| >= |ItemOpen| + |ItemClose| &&
      b[..|ItemOpen|] == ItemOpen && b[|b| - |ItemClose|..] == ItemClose
    ensures x.description.None? ==> DescriptionLine(x.description) == []
    ensures x.enclosure.None? ==> EnclosureLine(e, x.enclosure) == []
  {
    var ls := ItemLines(e, x);
    assert ls[0] == ItemOpen && ls[7] == ItemClose;
    ConcatEnds(ls);
  }

  /** A concatenation starts with its first part and ends with its last. */
  lemma ConcatEnds(ls: seq<string>)
    requires |ls| >= 2
    ensures var b := Concat(ls);
      |b| >= |ls[0]| + |ls[|ls| - 1]| &&
      b[..|ls[0]|] == ls[0] && b[|b| - |ls[|ls| - 1]|..] == ls[|ls| - 1]
  {
    var n := |ls| - 1;
    ConcatAround(ls, n);
    assert ls[n + 1..] == [];
    ConcatAround(ls[..n], 0);
    assert ls[..n][..0] == [];
    assert ls[..n][0] == ls[0];
  }

  // ----------------------------------------------------------------- feed

  /** The lines before the first item. */
  function FeedHead(e: Escaper, ch: Channel): string {
    "<?xml version=\"1.0\" encoding=\"UTF-8\"?>\n" +
    "<rss version=\"2.0\" xmlns:atom=\"http://www.w3.org/2005/Atom\">\n" +
    "<channel>\n" +
    "  <title>" + Esc(e, ch.title) + "</title>\n" +
    "  <description>" + Esc(e, ch.description) + "</description>\n" +
    "  <link>" + Esc(e, ch.site) + "</link>\n" +
    "  <atom:link href=\"" + Esc(e, ch.site + "/rss.xml") + "\" rel=\"self\" type=\"application/rss+xml\" />\n"
  }

  const FeedTail := "</channel>\n</rss>\n"

  /** The written items, one per row: `items.map(render).join("")`. */
  function Items(render: NewsRow -> string, rows: seq<NewsRow>): string
    decreases |rows|
  {
    if rows == [] then [] else render(rows[0]) + Items(render, rows[1..])
  }

  /** The items are those of the rows before row `i`, row `i`'s item and
      those of the rows after it. */
  lemma {:induction false} ItemsAround(render: NewsRow -> string, rows: seq<NewsRow>, i: nat)
    requires i < |rows|
    ensures Items(render, rows) == Items(render, rows[..i]) + render(rows[i]) + Items(render, rows[i + 1..])
    decreases i
  {
    if i == 0 {
      assert rows[..0] == [];
      assert Items(render, rows[..0]) == [];
    } else {
      var tail := rows[1..];
      ItemsAround(render, tail, i - 1);
      assert tail[i - 1] == rows[i];
      assert tail[i..] == rows[i + 1..];
      assert rows[..i][0] == rows[0];
      assert rows[..i][1..] == tail[..i - 1];
      calc {
        Items(render, rows);
        render(rows[0]) + Items(render, tail);
        render(rows[0]) + (Items(render, tail[..i - 1]) + render(rows[i]) + Items(render, rows[i + 1..]));
        (render(rows[0]) + Items(render, tail[..i - 1])) + render(rows[i]) + Items(render, rows[i + 1..]);
        Items(render, rows[..i]) + render(rows[i]) + Items(render, rows[i + 1..]);
      }
    }
  }

  /** The `items.map` callback. */
  function RenderRow(e: Escaper, ch: Channel, toUtc: string -> string, now: string): NewsRow -> string {
    r => RenderItem(e, ItemOf(ch, r, toUtc, now))
  }

  /** The feed document: the channel head, the items and the closing lines. */
  function FeedXml(e: Escaper, ch: Channel, data: Option<seq<NewsRow>>, toUtc: string -> string, now: string): string {
    FeedHead(e, ch) + Items(RenderRow(e, ch, toUtc, now), RowsOf(data)) + FeedTail
  }

  /** Every row contributes exactly one item, in input order: the items of
      the feed are those of the rows before, this row's item and those of the
      rows after. */
  lemma FeedItemInOrder(e: Escaper, ch: Channel, rows: seq<NewsRow>, i: nat, toUtc: string -> string, now: string)
    requires i < |rows|
    ensures var render := RenderRow(e, ch, toUtc, now);
      Items(render, rows) ==
      Items(render, rows[..i]) + RenderItem(e, ItemOf(ch, rows[i], toUtc, now)) + Items(render, rows[i + 1..])
  {
    var render := RenderRow(e, ch, toUtc, now);
    ItemsAround(render, rows, i);
    assert render(rows[i]) == RenderItem(e, ItemOf(ch, rows[i], toUtc, now));
  }
}
