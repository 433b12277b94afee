/** The news export of public/scripts/export-news.mjs: the text helpers, the
    article links and the page count read from a listing page, the cover
    URL made absolute, and the walk over the listing pages that exports each
    article once. Fetching, the article markup heuristics, the cover
    download and the JSON file are outside the model: the listing pages are
    a parameter and the article fragments are arguments. */
module NewsExport {
  import opened Common
  import opened Text
  import Slug

  const Base := "https://radioabf.com"

  // ------------------------------------------------------------ text helpers

  /** `stripTags`: every tag becomes a space, then `cleanText`. */
  function StripTags(html: string): string {
    CleanText(RemoveTags(html))
  }

  /** The stripped text is trimmed, single-spaced, holds no other whitespace
      than plain spaces and no complete tag; text without `<` is only
      cleaned. */
  lemma StripTagsShape(html: string)
    ensures var r := StripTags(html);
      IsTrimmed(r) && NoDoubleSpace(r) && NoTag(r) &&
      (forall i :: 0 <= i < |r| && IsSpace(r[i]) ==> r[i] == ' ')
    ensures '<' !in html ==> StripTags(html) == CleanText(html)
  {
    RemoveTagsNoTag(html);
    CleanTextKeepsNoTag(RemoveTags(html));
    if '<' !in html {
      RemoveTagsPlain(html);
    }
  }

  /** `firstN(s, n)`: the cleaned text when it fits in `n` characters,
      otherwise its first `n - 1` characters, trimmed, and an ellipsis. */
  function FirstN(s: string, n: int): string {
    Cut(CleanText(s), n)
  }

  function Cut(t: string, n: int): string {
    if |t| <= n then t else Trim(SliceTo(t, n - 1)) + "…"
  }

  /** For any positive `n` the result has at most `n` characters. A text
      that fits is returned cleaned; a longer one is cut to a trimmed prefix
      of its cleaned form followed by `…`. */
  lemma FirstNFits(s: string, n: int)
    requires n >= 1
    ensures var t, r := CleanText(s), FirstN(s, n);
      |r| <= n &&
      (|t| <= n ==> r == t) &&
      (|t| > n ==> r != [] && r[|r| - 1] == '…' && IsTrimmed(r[..|r| - 1]) && r[..|r| - 1] == t[..|r| - 1])
  {
    CutFits(CleanText(s), n);
  }

  lemma CutFits(t: string, n: int)
    requires n >= 1 && IsTrimmed(t)
    ensures var r := Cut(t, n);
      |r| <= n &&
      (|t| <= n ==> r == t) &&
      (|t| > n ==> r != [] && r[|r| - 1] == '…' && IsTrimmed(r[..|r| - 1]) && r[..|r| - 1] == t[..|r| - 1])
  {
    if |t| > n {
      CutTrimmed(t, n - 1);
      var q := Trim(SliceTo(t, n - 1));
      var r := q + "…";
      assert r[..|r| - 1] == q;
    }
  }

  /** The first `k` characters of a trimmed text, trimmed, are a prefix of
      it of at most `k` characters. */
  lemma CutTrimmed(t: string, k: nat)
    requires IsTrimmed(t) && k < |t|
    ensures var q := Trim(SliceTo(t, k)); |q| <= k && q == t[..|q|]
  {
    var p := SliceTo(t, k);
    assert p == [] || p[0] == t[0];
    TrimOfLeadTrimmed(p);
  }

  // ----------------------------------------------------------- listing links

  datatype ListingLink = ListingLink(url: string, category: string)

  const LinkHead := "href=\"https://radioabf.com/news/"
  const NewsPrefix := "https://radioabf.com/news/"

  /** One match of `href="(https://radioabf\.com/news/(radio|music)/[^"]+)"`
      starting at `i`: the link and the position just past its closing
      quote. The captured URL is the site's news prefix, the category, a `/`
      and the run of non-quote characters up to the closing quote. */
  function LinkAt(h: string, i: nat): (r: Option<(ListingLink, nat)>)
    ensures r.Some? ==>
      var c := i + |LinkHead|;
      OccursAt(h, LinkHead, i) &&
      (r.value.0.category == "radio" || r.value.0.category == "music") &&
      OccursAt(h, r.value.0.category + "/", c) &&
      c + 6 < r.value.1 - 1 < |h| && h[r.value.1 - 1] == '"' &&
      (forall k :: c + 6 <= k < r.value.1 - 1 ==> h[k] != '"') &&
      r.value.0.url == NewsPrefix + r.value.0.category + "/" + h[c + 6..r.value.1 - 1]
  {
    var c := i + |LinkHead|;
    if !OccursAt(h, LinkHead, i) then None
    else if !(OccursAt(h, "radio/", c) || OccursAt(h, "music/", c)) then None
    else
      var e := RunUntil(h, c + 6, ch => ch == '"');
      var cat := if OccursAt(h, "radio/", c) then "radio" else "music";
      if e == c + 6 || e == |h| then None
      else Some((ListingLink(NewsPrefix + cat + "/" + h[c + 6..e], cat), e + 1))
  }

  /** The captured URL is the text between the quotes. */
  lemma LinkAtText(h: string, i: nat)
    requires LinkAt(h, i).Some?
    ensures LinkAt(h, i).value.0.url == h[i + 6..LinkAt(h, i).value.1 - 1]
  {
    var r := LinkAt(h, i).value;
    QuotedUrl(h, i, r.0, r.1);
  }

  /** The URL rebuilt from the prefix, the category and the quoted tail is
      the text after `href="`. */
  lemma QuotedUrl(h: string, i: nat, l: ListingLink, e: nat)
    requires OccursAt(h, LinkHead, i) && OccursAt(h, l.category + "/", i + |LinkHead|)
    requires |l.category| == 5 && i + |LinkHead| + 6 < e - 1 < |h|
    requires l.url == NewsPrefix + l.category + "/" + h[i + |LinkHead| + 6..e - 1]
    ensures l.url == h[i + 6..e - 1]
  {
    var c := i + |LinkHead|;
    var tail := h[c + 6..e - 1];
    assert l.url == NewsPrefix + (l.category + "/") + tail;
    assert h[i + 6..c] == NewsPrefix by {
      assert h[i..c] == LinkHead;
      LinkHeadTail(h[i..c]);
      assert h[i + 6..c] == h[i..c][6..];
    }
    assert h[c..c + 6] == l.category + "/";
    SliceThree(h, i + 6, c, c + 6, e - 1, NewsPrefix, l.category + "/", tail);
  }

  /** After `href="` the link head is the news prefix. */
  lemma LinkHeadTail(x: string)
    requires x == LinkHead
    ensures x[6..] == NewsPrefix
  {
  }

  /** A slice is the concatenation of the three slices it splits into. */
  lemma SliceThree(h: string, a: nat, b: nat, c: nat, d: nat, x: string, y: string, z: string)
    requires a <= b <= c <= d <= |h|
    requires h[a..b] == x && h[b..c] == y && h[c..d] == z
    ensures h[a..d] == x + y + z
  {
  }

  /** Every matched link is a radio or music article URL of the site. */
  predicate ArticleLink(l: ListingLink) {
    (l.category == "radio" || l.category == "music") &&
    StartsWith(l.url, NewsPrefix + l.category + "/") &&
    '"' !in l.url
  }

  /** A matched link is an article URL of the site under its category, with
      no quote inside, and the match advances. */
  lemma LinkAtShape(h: string, i: nat)
    requires LinkAt(h, i).Some?
    ensures ArticleLink(LinkAt(h, i).value.0) && LinkAt(h, i).value.1 > i
  {
    var (l, e) := LinkAt(h, i).value;
    var c := i + |LinkHead|;
    var tail := h[c + 6..e - 1];
    forall k | 0 <= k < |tail| ensures tail[k] != '"' {
      assert tail[k] == h[c + 6 + k];
    }
    HeadThenTail(l.category, tail);
  }

  lemma HeadThenTail(cat: string, tail: string)
    requires cat == "radio" || cat == "music"
    requires '"' !in tail
    ensures ArticleLink(ListingLink(NewsPrefix + cat + "/" + tail, cat))
  {
    var head := NewsPrefix + cat + "/";
    assert (head + tail)[..|head|] == head;
    assert '"' !in head;
  }

  /** The matches of the link pattern from `from` on. */
  function RawLinks(h: string, from: nat): seq<ListingLink> {
    Matches(h, from, LinkAt)
  }

  lemma {:induction false} RawLinksShape(h: string, from: nat)
    ensures forall k :: 0 <= k < |RawLinks(h, from)| ==> ArticleLink(RawLinks(h, from)[k])
    decreases |h| - from
  {
    if from < |h| {
      match LinkAt(h, from)
      case Some((l, e)) =>
        LinkAtShape(h, from);
        RawLinksShape(h, e);
        var r := RawLinks(h, from);
        assert r == [l] + RawLinks(h, e);
        forall k | 0 < k < |r| ensures ArticleLink(r[k]) {
          assert r[k] == RawLinks(h, e)[k - 1];
        }
      case None =>
        RawLinksShape(h, from + 1);
        assert RawLinks(h, from) == RawLinks(h, from + 1);
    }
  }

  /** The position of the first element with URL `u`, or `|xs|`. */
  function FirstWith(xs: seq<ListingLink>, u: string): (r: nat)
    ensures r <= |xs|
    ensures r < |xs| ==> xs[r].url == u
    ensures forall k :: 0 <= k < r ==> xs[k].url != u
    decreases |xs|
  {
    if xs == [] then 0
    else if xs[0].url == u then 0
    else 1 + FirstWith(xs[1..], u)
  }

  /** The `seen` filter: an element is kept when its URL was not seen
      before, and its URL is then marked as seen. */
  function KeepFirst(xs: seq<ListingLink>, seen: set<string>): (r: seq<ListingLink>)
    ensures forall k :: 0 <= k < |r| ==> r[k] in xs && r[k].url !in seen
    decreases |xs|
  {
    if xs == [] then []
    else if xs[0].url in seen then KeepFirst(xs[1..], seen)
    else [xs[0]] + KeepFirst(xs[1..], seen + {xs[0].url})
  }

  /** One step of the filter, after the elements already kept. */
  lemma KeepFirstStep(ys: seq<ListingLink>, seen: set<string>, kept: seq<ListingLink>)
    requires ys != []
    ensures ys[0].url in seen ==> kept + KeepFirst(ys, seen) == kept + KeepFirst(ys[1..], seen)
    ensures ys[0].url !in seen ==>
      kept + KeepFirst(ys, seen) == (kept + [ys[0]]) + KeepFirst(ys[1..], seen + {ys[0].url})
  {
  }

  /** No URL appears twice. */
  predicate DistinctUrls(r: seq<ListingLink>) {
    forall i, j :: 0 <= i < j < |r| ==> r[i].url != r[j].url
  }

  predicate HasUrl(r: seq<ListingLink>, u: string) {
    exists k :: 0 <= k < |r| && r[k].url == u
  }

  /** The filter keeps no URL twice. */
  lemma {:induction false} KeepFirstDistinct(xs: seq<ListingLink>, seen: set<string>)
    ensures DistinctUrls(KeepFirst(xs, seen))
    decreases |xs|
  {
    if xs != [] {
      if xs[0].url in seen {
        KeepFirstDistinct(xs[1..], seen);
      } else {
        var seen' := seen + {xs[0].url};
        KeepFirstDistinct(xs[1..], seen');
        var r := KeepFirst(xs, seen);
        var rest := KeepFirst(xs[1..], seen');
        assert r == [xs[0]] + rest;
        forall i, j | 0 <= i < j < |r| ensures r[i].url != r[j].url {
          assert r[j] == rest[j - 1];
          if i > 0 {
            assert r[i] == rest[i - 1];
          } else {
            assert xs[0].url in seen';
          }
        }
      }
    }
  }

  /** The filter keeps every URL that was not seen before. */
  lemma {:induction false} KeepFirstComplete(xs: seq<ListingLink>, seen: set<string>)
    ensures forall x :: x in xs && x.url !in seen ==> HasUrl(KeepFirst(xs, seen), x.url)
    decreases |xs|
  {
    if xs != [] {
      var x := xs[0];
      var r := KeepFirst(xs, seen);
      if x.url in seen {
        KeepFirstComplete(xs[1..], seen);
        forall y | y in xs && y.url !in seen ensures HasUrl(r, y.url) {
          assert y in xs[1..];
        }
      } else {
        var seen' := seen + {x.url};
        KeepFirstComplete(xs[1..], seen');
        var rest := KeepFirst(xs[1..], seen');
        assert r == [x] + rest;
        forall y | y in xs && y.url !in seen ensures HasUrl(r, y.url) {
          if y.url == x.url {
            assert r[0].url == y.url;
          } else {
            assert y in xs[1..];
            var k :| 0 <= k < |rest| && rest[k].url == y.url;
            assert r[k + 1].url == y.url;
          }
        }
      }
    }
  }

  /** For each URL the filter keeps its first element, and it keeps the
      URLs in the order of their first appearance. */
  lemma {:induction false} KeepFirstOrder(xs: seq<ListingLink>, seen: set<string>)
    ensures forall k :: 0 <= k < |KeepFirst(xs, seen)| ==>
      FirstWith(xs, KeepFirst(xs, seen)[k].url) < |xs| &&
      KeepFirst(xs, seen)[k] == xs[FirstWith(xs, KeepFirst(xs, seen)[k].url)]
    ensures forall i, j :: 0 <= i < j < |KeepFirst(xs, seen)| ==>
      FirstWith(xs, KeepFirst(xs, seen)[i].url) < FirstWith(xs, KeepFirst(xs, seen)[j].url)
    decreases |xs|
  {
    if xs != [] {
      var x := xs[0];
      var tail := xs[1..];
      var r := KeepFirst(xs, seen);
      if x.url in seen {
        KeepFirstOrder(tail, seen);
        forall k | 0 <= k < |r| ensures FirstWith(xs, r[k].url) == 1 + FirstWith(tail, r[k].url) {
          assert r[k].url != x.url;
        }
      } else {
        var seen' := seen + {x.url};
        KeepFirstOrder(tail, seen');
        var rest := KeepFirst(tail, seen');
        assert r == [x] + rest;
        forall k | 0 < k < |r| ensures r[k] == rest[k - 1] && FirstWith(xs, r[k].url) == 1 + FirstWith(tail, r[k].url) {
          assert r[k] == rest[k - 1];
          assert r[k].url in seen' ==> false;
        }
      }
    }
  }

  /** `extractListingLinks`: the matches of the page, de-duplicated by URL. */
  function ListingLinks(h: string): seq<ListingLink> {
    KeepFirst(RawLinks(h, 0), {})
  }

  /** The `re.exec` loop of `extractListingLinks`. */
  method ScanLinks(h: string) returns (out: seq<ListingLink>)
    ensures out == RawLinks(h, 0)
  {
    out := ExecAll(h, LinkAt);
  }

  /** The `seen` filter of `extractListingLinks`. */
  method KeepFirstLinks(xs: seq<ListingLink>) returns (links: seq<ListingLink>)
    ensures links == KeepFirst(xs, {})
  {
    links := [];
    var seen: set<string> := {};
    var k := 0;
    while k < |xs|
      invariant k <= |xs|
      invariant links + KeepFirst(xs[k..], seen) == KeepFirst(xs, {})
    {
      KeepFirstStep(xs[k..], seen, links);
      assert xs[k..][0] == xs[k] && xs[k..][1..] == xs[k + 1..];
      if xs[k].url !in seen {
        links := links + [xs[k]];
        seen := seen + {xs[k].url};
      }
      k := k + 1;
    }
  }

  /** `extractListingLinks` as written: the `exec` loop, then the `seen`
      filter. */
  method ExtractListingLinks(h: string) returns (links: seq<ListingLink>)
    ensures links == ListingLinks(h)
  {
    var out := ScanLinks(h);
    links := KeepFirstLinks(out);
  }

  /** Each link is a radio or music article of the site, no URL appears
      twice, every matched URL is kept, and the kept links follow the order
      in which their URLs first appear on the page. */
  lemma ListingLinksFacts(h: string)
    ensures forall k :: 0 <= k < |ListingLinks(h)| ==> ArticleLink(ListingLinks(h)[k])
    ensures DistinctUrls(ListingLinks(h))
    ensures forall x :: x in RawLinks(h, 0) ==> HasUrl(ListingLinks(h), x.url)
    ensures forall i, j :: 0 <= i < j < |ListingLinks(h)| ==>
      FirstWith(RawLinks(h, 0), ListingLinks(h)[i].url) < FirstWith(RawLinks(h, 0), ListingLinks(h)[j].url)
  {
    var raw := RawLinks(h, 0);
    RawLinksShape(h, 0);
    KeepFirstDistinct(raw, {});
    KeepFirstComplete(raw, {});
    KeepFirstOrder(raw, {});
    forall k | 0 <= k < |ListingLinks(h)| ensures ArticleLink(ListingLinks(h)[k]) {
      var i :| 0 <= i < |raw| && raw[i] == ListingLinks(h)[k];
    }
  }

  // --------------------------------------------------------------- page count

  const PageHead := "https://radioabf.com/news?page="

  /** One match of `https://radioabf\.com/news\?page=(\d+)` starting at
      `i`: the page number and the end of the digit run. */
  function PageAt(h: string, i: nat): (r: Option<(nat, nat)>)
    ensures r.Some? ==> var (n, e) := r.value;
      OccursAt(h, PageHead, i) && i + |PageHead| < e <= |h| &&
      (forall k :: i + |PageHead| <= k < e ==> IsDigit(h[k])) &&
      (e < |h| ==> !IsDigit(h[e])) &&
      n == DecimalValue(h[i + |PageHead|..e])
  {
    if !OccursAt(h, PageHead, i) then None
    else
      var d := i + |PageHead|;
      var e := RunUntil(h, d, ch => !IsDigit(ch));
      if e == d then None else Some((DecimalValue(h[d..e]), e))
  }

  /** The page numbers of all pagination links from `from` on. */
  function PageNumbers(h: string, from: nat): seq<nat> {
    Matches(h, from, PageAt)
  }

  /** `Math.max` folded over `xs`, starting from `m`. */
  function Largest(m: nat, xs: seq<nat>): nat
    decreases |xs|
  {
    if xs == [] then m else Largest(if xs[0] > m then xs[0] else m, xs[1..])
  }

  lemma {:induction false} LargestFacts(m: nat, xs: seq<nat>)
    ensures var r := Largest(m, xs);
      r >= m && (forall x :: x in xs ==> x <= r) && (r == m || r in xs)
    decreases |xs|
  {
    if xs != [] {
      var m' := if xs[0] > m then xs[0] else m;
      LargestFacts(m', xs[1..]);
      assert forall x :: x in xs ==> x == xs[0] || x in xs[1..];
    }
  }

  /** `extractMaxPage`: the largest page number linked from the page, and 1
      when there is none. */
  function MaxPage(h: string): nat {
    Largest(1, PageNumbers(h, 0))
  }

  /** `extractMaxPage` as written: the `exec` loop updating `max`. */
  method ExtractMaxPage(h: string) returns (max: nat)
    ensures max == MaxPage(h)
  {
    max := 1;
    var pos := 0;
    while pos < |h|
      invariant Largest(max, PageNumbers(h, pos)) == MaxPage(h)
      decreases |h| - pos
    {
      match PageAt(h, pos)
      case Some((n, e)) =>
        assert Matches(h, pos, PageAt) == [n] + Matches(h, e, PageAt);
        if n > max {
          max := n;
        }
        pos := e;
      case None =>
        pos := pos + 1;
    }
  }

  /** The page count is at least 1, no smaller than any page number linked
      from the page, and is 1 or one of them. */
  lemma MaxPageFacts(h: string)
    ensures var r, ns := MaxPage(h), PageNumbers(h, 0);
      r >= 1 && (forall n :: n in ns ==> n <= r) && (r == 1 || r in ns)
  {
    LargestFacts(1, PageNumbers(h, 0));
  }

  // -------------------------------------------------------------- the article

  /** `url.split("/").pop()`: the text after the last `/`. */
  function LastSegment(s: string): (r: string)
    ensures '/' !in r
    ensures |r| <= |s| && r == s[|s| - |r|..]
    ensures |r| < |s| ==> s[|s| - |r| - 1] == '/'
  {
    AfterLast(s, '/')
  }

  /** The text after the last `c`. */
  function AfterLast(s: string, c: char): (r: string)
    ensures SegmentSuffix(s, r, c)
    decreases |s|
  {
    if s == [] || s[|s| - 1] == c then []
    else
      var r := AfterLast(s[..|s| - 1], c);
      assert s[..|s| - 1][|s| - 1 - |r|..] == s[|s| - 1 - |r|..|s| - 1];
      r + [s[|s| - 1]]
  }

  /** `r` is a suffix of `s` free of `c` that starts the text or follows a
      `c`. */
  predicate SegmentSuffix(s: string, r: string, c: char) {
    c !in r && |r| <= |s| && r == s[|s| - |r|..] && (|r| < |s| ==> s[|s| - |r| - 1] == c)
  }

  /** A suffix free of `/` that starts the text or follows a `/` is the
      last segment. */
  lemma LastSegmentUnique(s: string, r: string)
    requires '/' !in r && |r| <= |s| && r == s[|s| - |r|..]
    requires |r| < |s| ==> s[|s| - |r| - 1] == '/'
    ensures r == LastSegment(s)
  {
    AfterLastUnique(s, r, '/');
  }

  lemma AfterLastUnique(s: string, r: string, c: char)
    requires SegmentSuffix(s, r, c)
    ensures r == AfterLast(s, c)
  {
    var l := AfterLast(s, c);
  }

  /** The last part of `split("/")` is the last segment. */
  lemma SplitLastSegment(s: string)
    ensures var parts := Split(s, ['/']); parts[|parts| - 1] == LastSegment(s)
  {
    SplitLastAfterLast(s, '/');
    assert LastSegment(s) == AfterLast(s, '/');
  }

  /** The last part of `split(c)`. */
  function LastPart(s: string, c: char): string {
    Last(Split(s, [c]))
  }

  function Last(parts: seq<string>): string
    requires parts != []
  {
    parts[|parts| - 1]
  }

  /** The last part of `split(c)` is the text after the last `c`. */
  lemma SplitLastAfterLast(s: string, c: char)
    ensures LastPart(s, c) == AfterLast(s, c)
  {
    SplitLastSuffix(s, c);
    AfterLastUnique(s, LastPart(s, c), c);
  }

  lemma {:induction false} SplitLastSuffix(s: string, c: char)
    ensures SegmentSuffix(s, LastPart(s, c), c)
    decreases |s|
  {
    match IndexOf(s, [c])
    case None =>
      SplitWhole(s, c);
    case Some(i) =>
      SplitLastSuffix(s[i + 1..], c);
      SplitLastAfter(s, i, c);
      SegmentSuffixAfter(s, i, LastPart(s[i + 1..], c), c);
  }

  /** Without a `c` the text is the only part. */
  lemma SplitWhole(s: string, c: char)
    requires IndexOf(s, [c]).None?
    ensures SegmentSuffix(s, LastPart(s, c), c)
  {
    NoIndexNoChar(s, c);
    assert Split(s, [c]) == [s];
    assert s[0..] == s;
  }

  /** After the first `c`, the last part is the last part of the rest. */
  lemma SplitLastAfter(s: string, i: nat, c: char)
    requires IndexOf(s, [c]) == Some(i)
    ensures i < |s| && s[i] == c
    ensures LastPart(s, c) == LastPart(s[i + 1..], c)
  {
    OccursAtChar(s, c, i);
    SplitCons(s, c, i);
    LastOfCons(s[..i], Split(s[i + 1..], [c]));
  }

  lemma SplitCons(s: string, c: char, i: nat)
    requires IndexOf(s, [c]) == Some(i)
    ensures Split(s, [c]) == [s[..i]] + Split(s[i + 1..], [c])
  {
  }

  lemma OccursAtChar(s: string, c: char, i: nat)
    requires OccursAt(s, [c], i)
    ensures i < |s| && s[i] == c
  {
    assert s[i..i + 1][0] == s[i];
  }

  lemma LastOfCons(x: string, xs: seq<string>)
    requires xs != []
    ensures Last([x] + xs) == Last(xs)
  {
  }

  /** A segment suffix of the text after a `c` is one of the whole text. */
  lemma SegmentSuffixAfter(s: string, i: nat, r: string, c: char)
    requires i < |s| && s[i] == c && SegmentSuffix(s[i + 1..], r, c)
    ensures SegmentSuffix(s, r, c)
  {
    var t := s[i + 1..];
    var a := |t| - |r|;
    assert i + 1 + a == |s| - |r|;
    assert r == s[|s| - |r|..] by {
      assert t[a..] == s[i + 1 + a..];
    }
    if a > 0 {
      assert s[|s| - |r| - 1] == t[a - 1];
    } else {
      assert |s| - |r| - 1 == i;
    }
  }

  /** `cover_url`: no cover for a missing or empty source; a source starting
      with `http` is kept, any other one is prefixed with the site's base. */
  function CoverUrl(raw: Option<string>): (r: Option<string>)
    ensures r.Some? <==> raw.Some? && raw.value != []
    ensures r.Some? ==> StartsWith(r.value, "http")
    ensures r.Some? && StartsWith(raw.value, "http") ==> r.value == raw.value
    ensures r.Some? && !StartsWith(raw.value, "http") ==> r.value == Base + raw.value
  {
    match raw
    case None => None
    case Some(u) =>
      if u == [] then None
      else if StartsWith(u, "http") then Some(u)
      else
        assert (Base + u)[..4] == "http";
        Some(Base + u)
  }

  /** The exported record, for the fields the model computes. */
  datatype NewsItem = NewsItem(
    slug: string, url: string, category: string,
    excerpt: string, contentText: string, coverUrl: Option<string>)

  /** The record built by `extractArticle` for a link, given the post
      fragment and the image source that the markup heuristics found. */
  function Article(link: ListingLink, contentHtml: string, coverRaw: Option<string>): NewsItem {
    var text := StripTags(contentHtml);
    NewsItem(LastSegment(link.url), link.url, link.category, FirstN(text, 180), text, CoverUrl(coverRaw))
  }

  /** The slug is the URL's last segment, the excerpt fits in 180
      characters and is the whole stripped text when that fits, and a cover
      URL is absolute. */
  lemma ArticleFacts(link: ListingLink, contentHtml: string, coverRaw: Option<string>)
    ensures var a := Article(link, contentHtml, coverRaw);
      '/' !in a.slug && EndsWith(a.url, a.slug) &&
      |a.excerpt| <= 180 &&
      (|a.contentText| <= 180 ==> a.excerpt == a.contentText) &&
      (a.coverUrl.Some? ==> StartsWith(a.coverUrl.value, "http"))
  {
    ExcerptFits(StripTags(contentHtml));
    CleanTextIdempotent(RemoveTags(contentHtml));
    var s := LastSegment(link.url);
    assert link.url[|link.url| - |s|..] == s;
  }

  /** `firstN(content_text, 180)` of an already cleaned text. */
  lemma ExcerptFits(text: string)
    ensures |FirstN(text, 180)| <= 180
    ensures |text| <= 180 && text == CleanText(text) ==> FirstN(text, 180) == text
  {
    FirstNFits(text, 180);
  }

  /** The file name a cover is saved under, before its extension. */
  function CoverFileStem(item: NewsItem): string {
    Slug.SafeFilename(item.slug)
  }

  // ----------------------------------------------------------- the page walk

  /** Listing page `p`: the first page is the one already fetched. */
  function PageHtml(first: string, listing: nat -> string, p: nat): string {
    if p == 1 then first else listing(p)
  }

  /** The links `extractListingLinks` reads from each listing page. */
  function PageLinks(first: string, listing: nat -> string): nat -> seq<ListingLink> {
    (p: nat) => ListingLinks(PageHtml(first, listing, p))
  }

  /** The links of pages `p` to `last`, page after page. */
  function PagesLinks(pageLinks: nat -> seq<ListingLink>, p: nat, last: nat): seq<ListingLink>
    decreases last + 1 - p
  {
    if p > last then [] else pageLinks(p) + PagesLinks(pageLinks, p + 1, last)
  }

  /** The articles `main` fetches, in order: every link of pages 1 to the
      page count, skipping URLs already visited. */
  function Exported(first: string, listing: nat -> string): seq<ListingLink> {
    KeepFirst(PagesLinks(PageLinks(first, listing), 1, MaxPage(first)), {})
  }

  /** `main`'s two loops over the pages and their links, with the
      `visitedArticles` set. */
  method VisitPages(pageLinks: nat -> seq<ListingLink>, maxPage: nat) returns (items: seq<ListingLink>)
    ensures items == KeepFirst(PagesLinks(pageLinks, 1, maxPage), {})
  {
    var visited: set<string> := {};
    items := [];
    var p := 1;
    while p <= maxPage
      invariant 1 <= p <= maxPage + 1
      invariant items + KeepFirst(PagesLinks(pageLinks, p, maxPage), visited) == KeepFirst(PagesLinks(pageLinks, 1, maxPage), {})
      decreases maxPage + 1 - p
    {
      var links := pageLinks(p);
      var rest := PagesLinks(pageLinks, p + 1, maxPage);
      assert PagesLinks(pageLinks, p, maxPage) == links + rest;
      var k := 0;
      while k < |links|
        invariant k <= |links|
        invariant items + KeepFirst(links[k..] + rest, visited) == KeepFirst(PagesLinks(pageLinks, 1, maxPage), {})
      {
        KeepFirstStep(links[k..] + rest, visited, items);
        assert (links[k..] + rest)[0] == links[k];
        assert (links[k..] + rest)[1..] == links[k + 1..] + rest;
        if links[k].url !in visited {
          visited := visited + {links[k].url};
          items := items + [links[k]];
        }
        k := k + 1;
      }
      assert links[k..] + rest == rest;
      p := p + 1;
    }
  }

  /** `main` up to the article fetches: the page count from the first page,
      then the walk over the listing pages. */
  method ExportLinks(first: string, listing: nat -> string) returns (items: seq<ListingLink>)
    ensures items == Exported(first, listing)
  {
    var maxPage := ExtractMaxPage(first);
    items := VisitPages(PageLinks(first, listing), maxPage);
  }

  /** A link of page `q` is among the links of pages `p` to `last`. */
  lemma {:induction false} PagesLinksHas(pageLinks: nat -> seq<ListingLink>, p: nat, q: nat, last: nat)
    requires p <= q <= last
    ensures forall l :: l in pageLinks(q) ==> l in PagesLinks(pageLinks, p, last)
    decreases q - p
  {
    if p < q {
      PagesLinksHas(pageLinks, p + 1, q, last);
    }
  }

  /** Each article URL is exported at most once, and every article linked
      from a listing page between 1 and the page count is exported. */
  lemma ExportedFacts(first: string, listing: nat -> string)
    ensures DistinctUrls(Exported(first, listing))
    ensures forall p, l :: 1 <= p <= MaxPage(first) && l in ListingLinks(PageHtml(first, listing, p)) ==>
      HasUrl(Exported(first, listing), l.url)
  {
    var all := PagesLinks(PageLinks(first, listing), 1, MaxPage(first));
    KeepFirstDistinct(all, {});
    KeepFirstComplete(all, {});
    forall p, l | 1 <= p <= MaxPage(first) && l in ListingLinks(PageHtml(first, listing, p))
      ensures l in all
    {
      PagesLinksHas(PageLinks(first, listing), 1, p, MaxPage(first));
    }
  }
}
