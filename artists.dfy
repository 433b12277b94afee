/** The page-reading helpers of scripts/sync-artists.mjs: the portrait URL
    inside an inline style, the `thumb_` rewrite, the slug of an artist
    link, the categories read from the genre texts, and the paging loop that
    collects artist slugs from the listing pages. The HTML traversal and the
    URL parser are parameters. */
module ArtistSync {
  import opened Common
  import opened Text

  predicate IsQuote(c: char) {
    c == '"' || c == '\''
  }

  // --------------------------------------------------------- bgUrlFromStyle

  /** `background-image\s*:\s*url\(([^)]+)\)` matched, ignoring case, at
      `i`: the bounds of the group. `[^)]+` takes every character up to the
      next `)`, and a shorter run could only be followed by a character
      other than `)`. */
  function BgAt(s: string, i: nat): (r: Option<(nat, nat)>)
    requires i <= |s|
    ensures r.Some? ==> i < r.value.0 < r.value.1 < |s| && s[r.value.1] == ')'
    ensures r.Some? ==> forall k :: r.value.0 <= k < r.value.1 ==> s[k] != ')'
  {
    if !OccursAtCI(s, "background-image", i) then None
    else
      var j := SkipSpaces(s, i + 16);
      if j == |s| || s[j] != ':' then None
      else
        var k := SkipSpaces(s, j + 1);
        if !OccursAtCI(s, "url(", k) then None
        else
          var e := RunUntil(s, k + 4, c => c == ')');
          if e == k + 4 || e == |s| then None else Some((k + 4, e))
  }

  /** The leftmost match at or after `from`. */
  function FindBg(s: string, from: nat): (r: Option<nat>)
    requires from <= |s|
    ensures r.Some? ==> from <= r.value <= |s| && BgAt(s, r.value).Some?
    ensures r.Some? ==> forall p: nat :: from <= p < r.value ==> BgAt(s, p).None?
    ensures r.None? ==> forall p: nat :: from <= p <= |s| ==> BgAt(s, p).None?
    decreases |s| - from
  {
    var here := BgAt(s, from);
    if here.Some? then Some(from)
    else if from == |s| then None
    else
      var r := FindBg(s, from + 1);
      assert r.Some? ==> forall p: nat :: from <= p < r.value ==> BgAt(s, p).None? by {
        if r.Some? {
          forall p: nat | from <= p < r.value ensures BgAt(s, p).None? {
            if p == from { assert BgAt(s, p) == here; }
          }
        }
      }
      r
  }

  /** `replace(/^["']|["']$/g, "")`: one quote off the front and one off the
      back; a lone quote goes once. */
  function StripQuotes(t: string): string {
    var a := if t != [] && IsQuote(t[0]) then 1 else 0;
    var b := if |t| > a && IsQuote(t[|t| - 1]) then |t| - 1 else |t|;
    t[a..b]
  }

  /** Quotes around a value are taken off, and a value neither starting nor
      ending with a quote is left alone. */
  lemma StripQuotesOf(u: string, q: char, q2: char)
    requires IsQuote(q) && IsQuote(q2)
    ensures StripQuotes([q] + u + [q2]) == u
    ensures u == [] || (!IsQuote(u[0]) && !IsQuote(u[|u| - 1])) ==> StripQuotes(u) == u
  {
    assert ([q] + u + [q2])[1..|u| + 1] == u;
  }

  /** `bgUrlFromStyle`. */
  function BgUrl(style: JsValue): string {
    var s := StrOr(style, "");
    match FindBg(s, 0)
    case None => ""
    case Some(p) =>
      var (a, b) := BgAt(s, p).value;
      StripQuotes(Trim(s[a..b]))
  }

  /** The URL never holds the `)` that closes `url(`. */
  lemma BgUrlNoParen(style: JsValue)
    ensures ')' !in BgUrl(style)
  {
    var s := StrOr(style, "");
    match FindBg(s, 0)
    case None =>
    case Some(p) =>
      var (a, b) := BgAt(s, p).value;
      CleanNoParen(s, a, b);
  }

  lemma CleanNoParen(s: string, a: nat, b: nat)
    requires a <= b <= |s|
    requires forall k :: a <= k < b ==> s[k] != ')'
    ensures ')' !in StripQuotes(Trim(s[a..b]))
  {
    var g := s[a..b];
    assert forall k :: 0 <= k < |g| ==> g[k] == s[a + k];
    TrimKeeps(g, c => c != ')');
    StripQuotesKeeps(Trim(g), c => c != ')');
  }

  lemma StripQuotesKeeps(t: string, p: char -> bool)
    requires forall k :: 0 <= k < |t| ==> p(t[k])
    ensures forall k :: 0 <= k < |StripQuotes(t)| ==> p(StripQuotes(t)[k])
  {
    var a := if t != [] && IsQuote(t[0]) then 1 else 0;
    var b := if |t| > a && IsQuote(t[|t| - 1]) then |t| - 1 else |t|;
    assert forall k :: 0 <= k < b - a ==> t[a..b][k] == t[a + k];
  }

  /** A style without the `background-image` property gives `""`. */
  lemma BgUrlAbsent(style: string)
    requires !ContainsCI(style, "background-image")
    ensures BgUrl(Str(style)) == ""
  {
  }

  const StyleHead: string := "background-image: url("

  /** The style attribute the site writes for a portrait: the pattern
      matches at its start, its group being the quoted URL. */
  lemma BgAtStyle(g: string)
    requires ')' !in g && g != []
    ensures var s := StyleHead + g + ")";
      BgAt(s, 0) == Some((22, 22 + |g|))
  {
    var s := StyleHead + g + ")";
    assert s[..22] == StyleHead;
    assert forall k :: 0 <= k < 22 ==> s[k] == StyleHead[k];
    assert OccursAtCI(s, "background-image", 0);
    assert SkipSpaces(s, 16) == 16;
    assert SkipSpaces(s, 17) == 18;
    assert OccursAtCI(s, "url(", 18);
    assert forall k :: 22 <= k < 22 + |g| ==> s[k] == g[k - 22];
    RunUntilAt(s, 22, 22 + |g|, c => c == ')');
  }

  /** The URL of `background-image: url("…")`, written as the site does. */
  lemma BgUrlOfStyle(u: string, q: char)
    requires IsQuote(q) && u != [] && ')' !in u && !IsQuote(u[0]) && !IsQuote(u[|u| - 1])
    ensures BgUrl(Str(StyleHead + [q] + u + [q] + ")")) == u
  {
    var g := [q] + u + [q];
    var s := StyleHead + g + ")";
    assert s == StyleHead + [q] + u + [q] + ")";
    BgAtStyle(g);
    assert s[22..22 + |g|] == g;
    TrimOfTrimmed(g);
    StripQuotesOf(u, q, q);
  }

  // ---------------------------------------------------------------- unthumb

  predicate IsSep(c: char) {
    c == '/' || c == '?' || c == '#'
  }

  /** The characters `.` does not match. */
  predicate IsLineTerminator(c: char) {
    c == '\n' || c == '\r' || c == '\U{2028}' || c == '\U{2029}'
  }

  /** `/\/thumb_([^/?#]+)([?#].*)?$/i` matched at `p`: a non-empty segment
      after `thumb_`, then either the end or a query or fragment running to
      the end on one line. */
  predicate ThumbAt(s: string, p: nat) {
    OccursAtCI(s, "/thumb_", p) &&
    var q := RunUntil(s, p + 7, IsSep);
    q > p + 7 && (q == |s| || (s[q] != '/' && forall k :: q < k < |s| ==> !IsLineTerminator(s[k])))
  }

  function FindThumb(s: string, from: nat): (r: Option<nat>)
    ensures r.Some? ==> from <= r.value && ThumbAt(s, r.value)
    ensures r.Some? ==> forall p: nat :: from <= p < r.value ==> !ThumbAt(s, p)
    ensures r.None? ==> forall p: nat :: from <= p ==> !ThumbAt(s, p)
    decreases |s| - from
  {
    if from >= |s| then None
    else if ThumbAt(s, from) then Some(from)
    else FindThumb(s, from + 1)
  }

  /** `unthumb`: the `thumb_` of the first match is removed, the rest of the
      URL kept. */
  function Unthumb(u: JsValue): string {
    var s := StrOr(u, "");
    match FindThumb(s, 0)
    case None => s
    case Some(p) => s[..p + 1] + s[p + 7..]
  }

  /** A URL without `/thumb_`, in any case, is left as it is. */
  lemma UnthumbOther(s: string)
    requires !ContainsCI(s, "/thumb_")
    ensures Unthumb(Str(s)) == s
  {
  }

  /** The thumbnail of an image on the site's storage leads back to the
      image: the prefix holds no query or fragment, the file name no
      separator, and the tail is empty or a one-line query or fragment. */
  lemma UnthumbRestores(prefix: string, x: string, tail: string)
    requires '?' !in prefix && '#' !in prefix
    requires x != [] && forall k :: 0 <= k < |x| ==> !IsSep(x[k])
    requires tail == [] || ((tail[0] == '?' || tail[0] == '#') && forall k :: 1 <= k < |tail| ==> !IsLineTerminator(tail[k]))
    ensures Unthumb(Str(prefix + "/thumb_" + x + tail)) == prefix + "/" + x + tail
  {
    var s := prefix + "/thumb_" + x + tail;
    var n := |prefix|;
    ThumbAtJoin(prefix, x, tail);
    PrefixPlain(prefix, "/thumb_" + x + tail);
    assert s == prefix + ("/thumb_" + x + tail);
    FindThumbFirst(s, 0, n);
    UnthumbAt(s, n);
    DropThumb(prefix, x, tail);
  }

  lemma DropThumb(prefix: string, x: string, tail: string)
    ensures var s := prefix + "/thumb_" + x + tail;
      s[..|prefix| + 1] + s[|prefix| + 7..] == prefix + "/" + x + tail
  {
    var s := prefix + "/thumb_" + x + tail;
    var r := prefix + "/" + x + tail;
    var t := s[..|prefix| + 1] + s[|prefix| + 7..];
    assert |t| == |r|;
    forall k | 0 <= k < |r| ensures t[k] == r[k] {
      if k > |prefix| {
        assert t[k] == s[k + 6];
      }
    }
  }

  lemma UnthumbAt(s: string, p: nat)
    requires s != [] && FindThumb(s, 0) == Some(p)
    ensures Unthumb(Str(s)) == s[..p + 1] + s[p + 7..]
  {
  }

  lemma PrefixPlain(prefix: string, rest: string)
    requires '?' !in prefix && '#' !in prefix
    ensures forall k :: 0 <= k < |prefix| ==> (prefix + rest)[k] != '?' && (prefix + rest)[k] != '#'
  {
    assert forall k :: 0 <= k < |prefix| ==> (prefix + rest)[k] == prefix[k];
  }

  lemma ThumbAtJoin(prefix: string, x: string, tail: string)
    requires x != [] && forall k :: 0 <= k < |x| ==> !IsSep(x[k])
    requires tail == [] || ((tail[0] == '?' || tail[0] == '#') && forall k :: 1 <= k < |tail| ==> !IsLineTerminator(tail[k]))
    ensures var s := prefix + "/thumb_" + x + tail; s[|prefix|] == '/' && ThumbAt(s, |prefix|)
  {
    var s := prefix + "/thumb_" + x + tail;
    var n := |prefix|;
    assert forall k :: 0 <= k < 7 ==> s[n + k] == "/thumb_"[k];
    assert OccursAtCI(s, "/thumb_", n);
    var q := n + 7 + |x|;
    assert forall k :: n + 7 <= k < q ==> s[k] == x[k - n - 7];
    assert forall k :: q <= k < |s| ==> s[k] == tail[k - q];
    if q < |s| {
      RunUntilAt(s, n + 7, q, IsSep);
    } else {
      RunUntilEnd(s, n + 7, IsSep);
    }
  }

  /** A match before the `/thumb_` at `n` would have to run into the `/` at
      `n`. */
  lemma NoThumbBefore(s: string, n: nat, p: nat)
    requires p < n && n + 7 <= |s| && s[n] == '/'
    requires forall k :: 0 <= k < n ==> s[k] != '?' && s[k] != '#'
    ensures !ThumbAt(s, p)
  {
    if p + 7 > n {
      assert LowerChar(s[p + (n - p)]) != "/thumb_"[n - p];
    } else {
      var q := RunUntil(s, p + 7, IsSep);
      assert q <= n;
    }
  }

  /** With no query or fragment before the `/thumb_` at `n`, the match is
      the one at `n`. */
  lemma FindThumbFirst(s: string, from: nat, n: nat)
    requires from <= n && n + 7 <= |s| && s[n] == '/' && ThumbAt(s, n)
    requires forall k :: 0 <= k < n ==> s[k] != '?' && s[k] != '#'
    ensures FindThumb(s, from) == Some(n)
    decreases n - from
  {
    if from < n {
      NoThumbBefore(s, n, from);
      FindThumbFirst(s, from + 1, n);
    }
  }

  // -------------------------------------------------------- safeSlugFromUrl

  /** `/\/artists\/([^/?#]+)/i` matched at `p`. */
  predicate SlugAt(s: string, p: nat) {
    OccursAtCI(s, "/artists/", p) && RunUntil(s, p + 9, IsSep) > p + 9
  }

  function FindSlug(s: string, from: nat): (r: Option<nat>)
    ensures r.Some? ==> from <= r.value && SlugAt(s, r.value)
    ensures r.None? ==> forall p: nat :: from <= p ==> !SlugAt(s, p)
    decreases |s| - from
  {
    if from >= |s| then None
    else if SlugAt(s, from) then Some(from)
    else FindSlug(s, from + 1)
  }

  /** `safeSlugFromUrl` on a text. */
  function SlugOf(s: string): (r: string)
    ensures forall k :: 0 <= k < |r| ==> !IsSep(r[k])
    ensures r == [] <==> FindSlug(s, 0).None?
  {
    match FindSlug(s, 0)
    case None => ""
    case Some(p) => s[p + 9..RunUntil(s, p + 9, IsSep)]
  }

  /** `safeSlugFromUrl`. */
  function SafeSlug(u: JsValue): string {
    SlugOf(StrOr(u, ""))
  }

  /** The slug of an artist page link: what follows `/artists/` up to the
      next separator, provided the part before holds no `/artists`. */
  lemma SlugOfArtistUrl(base: string, slug: string, rest: string)
    requires !ContainsCI(base, "/artists")
    requires slug != [] && forall k :: 0 <= k < |slug| ==> !IsSep(slug[k])
    requires rest == [] || IsSep(rest[0])
    ensures SlugOf(base + "/artists/" + slug + rest) == slug
  {
    var s := base + "/artists/" + slug + rest;
    var n := |base|;
    var e := n + 9 + |slug|;
    SlugAtJoin(base, slug, rest);
    assert s == base + ("/artists/" + slug + rest);
    forall p: nat | p < n ensures !OccursAtCI(s, "/artists/", p) {
      NoArtistsAt(base, "/artists/" + slug + rest, p);
    }
    FindSlugFirst(s, 0, n);
    SlugOfAt(s, n);
    assert s[n + 9..e] == slug;
  }

  lemma SlugAtJoin(base: string, slug: string, rest: string)
    requires slug != [] && forall k :: 0 <= k < |slug| ==> !IsSep(slug[k])
    requires rest == [] || IsSep(rest[0])
    ensures var s := base + "/artists/" + slug + rest;
      SlugAt(s, |base|) && RunUntil(s, |base| + 9, IsSep) == |base| + 9 + |slug|
  {
    ArtistsAtJoin(base, slug + rest);
    assert base + "/artists/" + slug + rest == base + "/artists/" + (slug + rest);
    SlugRunJoin(base + "/artists/", slug, rest);
  }

  lemma ArtistsAtJoin(base: string, tail: string)
    ensures OccursAtCI(base + "/artists/" + tail, "/artists/", |base|)
  {
    var s := base + "/artists/" + tail;
    assert forall k :: 0 <= k < 9 ==> s[|base| + k] == "/artists/"[k];
  }

  lemma SlugRunJoin(head: string, slug: string, rest: string)
    requires forall k :: 0 <= k < |slug| ==> !IsSep(slug[k])
    requires rest == [] || IsSep(rest[0])
    ensures RunUntil(head + slug + rest, |head|, IsSep) == |head| + |slug|
  {
    var s := head + slug + rest;
    var n := |head|;
    var e := n + |slug|;
    assert forall k :: n <= k < e ==> s[k] == slug[k - n];
    if e < |s| {
      assert s[e] == rest[0];
      RunUntilAt(s, n, e, IsSep);
    } else {
      RunUntilEnd(s, n, IsSep);
    }
  }

  /** A text with no `/artists` has no `/artists/` starting inside it, even
      when followed by a `/`. */
  lemma NoArtistsAt(base: string, rest: string, p: nat)
    requires !ContainsCI(base, "/artists") && rest != [] && rest[0] == '/' && p < |base|
    ensures !OccursAtCI(base + rest, "/artists/", p)
  {
    var s := base + rest;
    var n := |base|;
    if p + 8 <= n {
      assert !OccursAtCI(base, "/artists", p);
      var k :| 0 <= k < 8 && LowerChar(base[p + k]) != "/artists"[k];
      assert s[p + k] == base[p + k];
      assert "/artists/"[k] == "/artists"[k];
      assert LowerChar(s[p + k]) != "/artists/"[k];
    } else {
      assert s[n] == '/';
      assert LowerChar(s[p + (n - p)]) != "/artists/"[n - p];
    }
  }

  lemma SlugOfAt(s: string, n: nat)
    requires FindSlug(s, 0) == Some(n)
    ensures SlugOf(s) == s[n + 9..RunUntil(s, n + 9, IsSep)]
  {
  }

  lemma FindSlugFirst(s: string, from: nat, n: nat)
    requires from <= n < |s| && SlugAt(s, n) && forall p: nat :: from <= p < n ==> !OccursAtCI(s, "/artists/", p)
    ensures FindSlug(s, from) == Some(n)
    decreases n - from
  {
    if from < n {
      FindSlugFirst(s, from + 1, n);
    }
  }

  // ------------------------------------------ normalizeCategoriesFromGenres

  const CategoryNames: seq<string> := ["resident", "guest", "team"]

  /** `Set.add` on a set kept in insertion order. */
  function AddNew(xs: seq<string>, x: string): seq<string> {
    if x in xs then xs else xs + [x]
  }

  /** The three tests on one lower-cased genre text, in order. */
  function GenreCats(cats: seq<string>, t: string): seq<string> {
    var c0 := if Contains(t, "resident") then AddNew(cats, "resident") else cats;
    var c1 := if Contains(t, "guest") then AddNew(c0, "guest") else c0;
    if Contains(t, "team") then AddNew(c1, "team") else c1
  }

  function GenreText(g: JsValue): string {
    Lower(StrOr(g, ""))
  }

  /** `normalizeCategoriesFromGenres`. */
  function Categories(genres: seq<JsValue>): seq<string>
    decreases |genres|
  {
    if genres == [] then []
    else GenreCats(Categories(genres[..|genres| - 1]), GenreText(genres[|genres| - 1]))
  }

  /** The loop over the genre texts. */
  method NormalizeCategories(genres: seq<JsValue>) returns (cats: seq<string>)
    ensures cats == Categories(genres)
  {
    cats := [];
    var i := 0;
    while i < |genres|
      invariant 0 <= i <= |genres|
      invariant cats == Categories(genres[..i])
    {
      assert genres[..i + 1][..i] == genres[..i];
      var t := GenreText(genres[i]);
      if Contains(t, "resident") {
        cats := AddNew(cats, "resident");
      }
      if Contains(t, "guest") {
        cats := AddNew(cats, "guest");
      }
      if Contains(t, "team") {
        cats := AddNew(cats, "team");
      }
      i := i + 1;
    }
    assert genres[..|genres|] == genres;
  }

  predicate NoDuplicates(xs: seq<string>) {
    forall i, j :: 0 <= i < j < |xs| ==> xs[i] != xs[j]
  }

  /** Some genre text mentions the category. */
  predicate Detected(genres: seq<JsValue>, c: string) {
    exists g :: g in genres && Contains(GenreText(g), c)
  }

  /** A category is returned if and only if some genre text, lower-cased,
      contains it; nothing else is returned, and nothing twice. */
  lemma {:induction false} CategoriesExactly(genres: seq<JsValue>)
    ensures NoDuplicates(Categories(genres))
    ensures forall c :: c in Categories(genres) <==> c in CategoryNames && Detected(genres, c)
    decreases |genres|
  {
    if genres != [] {
      var pre := genres[..|genres| - 1];
      var g := genres[|genres| - 1];
      CategoriesExactly(pre);
      DetectedLast(genres);
      GenreCatsExactly(Categories(pre), GenreText(g));
    }
  }

  /** The last genre text adds its own mentions to those of the others. */
  lemma DetectedLast(genres: seq<JsValue>)
    requires genres != []
    ensures forall c :: Detected(genres, c) <==>
      Detected(genres[..|genres| - 1], c) || Contains(GenreText(genres[|genres| - 1]), c)
  {
    var pre := genres[..|genres| - 1];
    var g := genres[|genres| - 1];
    assert genres == pre + [g];
    forall c ensures Detected(genres, c) <==> Detected(pre, c) || Contains(GenreText(g), c) {
      if Detected(genres, c) {
        var h :| h in genres && Contains(GenreText(h), c);
        if h != g {
          assert h in pre;
        }
      }
    }
  }

  /** `Set.add` keeps the set a set and adds exactly the new element. */
  lemma AddNewExactly(xs: seq<string>, x: string)
    requires NoDuplicates(xs)
    ensures NoDuplicates(AddNew(xs, x))
    ensures forall c :: c in AddNew(xs, x) <==> c in xs || c == x
  {
  }

  /** One genre text adds exactly the categories it mentions. */
  lemma GenreCatsExactly(cats: seq<string>, t: string)
    requires NoDuplicates(cats)
    ensures NoDuplicates(GenreCats(cats, t))
    ensures forall c :: c in GenreCats(cats, t) <==> c in cats || (c in CategoryNames && Contains(t, c))
  {
    var c0 := if Contains(t, "resident") then AddNew(cats, "resident") else cats;
    var c1 := if Contains(t, "guest") then AddNew(c0, "guest") else c0;
    AddNewExactly(cats, "resident");
    AddNewExactly(c0, "guest");
    AddNewExactly(c1, "team");
  }

  /** The position of a category in the order the tests are made. */
  function Rank(c: string): nat {
    if c == "resident" then 0 else if c == "guest" then 1 else 2
  }

  /** The first genre text that mentions `c`. */
  function FirstGenre(genres: seq<JsValue>, c: string): nat
    decreases |genres|
  {
    if genres == [] then 0
    else if Detected(genres[..|genres| - 1], c) then FirstGenre(genres[..|genres| - 1], c)
    else |genres| - 1
  }

  /** When a category was first detected: the genre text, then the test. */
  function DetectedAt(genres: seq<JsValue>, c: string): nat {
    3 * FirstGenre(genres, c) + Rank(c)
  }

  lemma FirstGenreBound(genres: seq<JsValue>, c: string)
    requires Detected(genres, c)
    ensures FirstGenre(genres, c) < |genres|
    decreases |genres|
  {
    if Detected(genres[..|genres| - 1], c) {
      FirstGenreBound(genres[..|genres| - 1], c);
    }
  }

  /** The categories come in the order they were first detected: genre text
      by genre text, and resident before guest before team within one. */
  lemma {:induction false} CategoriesOrdered(genres: seq<JsValue>)
    ensures var r := Categories(genres);
      forall i, j :: 0 <= i < j < |r| ==> DetectedAt(genres, r[i]) < DetectedAt(genres, r[j])
    decreases |genres|
  {
    if genres != [] {
      var pre := genres[..|genres| - 1];
      var old_ := Categories(pre);
      var r := Categories(genres);
      CategoriesOrdered(pre);
      GenreCatsExtends(old_, GenreText(genres[|genres| - 1]));
      forall i, j | 0 <= i < j < |r| ensures DetectedAt(genres, r[i]) < DetectedAt(genres, r[j]) {
        if j < |old_| {
          OldDetection(genres, r[i]);
          OldDetection(genres, r[j]);
          assert r[i] == old_[i] && r[j] == old_[j];
        } else if i < |old_| {
          OldDetection(genres, r[i]);
          NewDetection(genres, j);
        } else {
          NewDetection(genres, i);
          NewDetection(genres, j);
          GenreCatsRanked(old_, GenreText(genres[|genres| - 1]), i, j);
        }
      }
    }
  }

  /** A category already found keeps the detection it had. */
  lemma OldDetection(genres: seq<JsValue>, c: string)
    requires genres != [] && c in Categories(genres[..|genres| - 1])
    ensures DetectedAt(genres, c) == DetectedAt(genres[..|genres| - 1], c) < 3 * (|genres| - 1)
  {
    var pre := genres[..|genres| - 1];
    CategoriesExactly(pre);
    FirstGenreBound(pre, c);
  }

  /** A category added by the last genre text is detected there. */
  lemma NewDetection(genres: seq<JsValue>, j: nat)
    requires genres != []
    requires |Categories(genres[..|genres| - 1])| <= j < |Categories(genres)|
    ensures var c := Categories(genres)[j];
      c in CategoryNames && DetectedAt(genres, c) == 3 * (|genres| - 1) + Rank(c)
  {
    var pre := genres[..|genres| - 1];
    var c := Categories(genres)[j];
    GenreCatsNew(Categories(pre), GenreText(genres[|genres| - 1]), j);
    CategoriesExactly(pre);
    CategoriesExactly(genres);
  }

  lemma GenreCatsExtends(cats: seq<string>, t: string)
    ensures |GenreCats(cats, t)| >= |cats| && GenreCats(cats, t)[..|cats|] == cats
  {
  }

  lemma GenreCatsNew(cats: seq<string>, t: string, j: nat)
    requires |cats| <= j < |GenreCats(cats, t)|
    ensures GenreCats(cats, t)[j] !in cats
  {
  }

  /** Within one genre text the new categories are added in test order. */
  lemma GenreCatsRanked(cats: seq<string>, t: string, i: nat, j: nat)
    requires |cats| <= i < j < |GenreCats(cats, t)|
    ensures Rank(GenreCats(cats, t)[i]) < Rank(GenreCats(cats, t)[j])
  {
  }

  // ------------------------------------------------------------ collectSlugs

  /** An artist link of a listing page: its absolute `href` and the path the
      URL parser gives for it. */
  datatype Link = Link(href: string, pathname: string)

  /** `pathname.split("/").filter(Boolean)`. */
  function Segments(path: string): (r: seq<string>)
    ensures forall k :: 0 <= k < |r| ==> r[k] != [] && '/' !in r[k]
  {
    var parts := Split(path, "/");
    SplitNoSep(path);
    NonEmpty(parts)
  }

  function NonEmpty(parts: seq<string>): (r: seq<string>)
    ensures forall k :: 0 <= k < |r| ==> r[k] != [] && r[k] in parts
    decreases |parts|
  {
    if parts == [] then []
    else
      var rest := NonEmpty(parts[1..]);
      if parts[0] == [] then rest else [parts[0]] + rest
  }

  lemma {:induction false} SplitNoSep(s: string)
    ensures forall k :: 0 <= k < |Split(s, "/")| ==> '/' !in Split(s, "/")[k]
    decreases |s|
  {
    match IndexOf(s, "/")
    case None =>
      forall k | 0 <= k < |s| ensures s[k] != '/' {
        assert !OccursAt(s, "/", k);
      }
    case Some(i) =>
      SplitNoSep(s[i + 1..]);
      forall k | 0 <= k < i ensures s[k] != '/' {
        assert !OccursAt(s, "/", k);
      }
      var parts := Split(s, "/");
      assert parts == [s[..i]] + Split(s[i + 1..], "/");
  }

  /** `parts.indexOf(x)`, `-1` when absent. */
  function IndexOfPart(parts: seq<string>, x: string): (r: int)
    ensures -1 <= r < |parts|
    ensures r >= 0 ==> parts[r] == x && forall k :: 0 <= k < r ==> parts[k] != x
    ensures r == -1 ==> x !in parts
    decreases |parts|
  {
    if parts == [] then -1
    else if parts[0] == x then 0
    else
      var r := IndexOfPart(parts[1..], x);
      if r == -1 then -1 else r + 1
  }

  /** `parts[i] || ""`. */
  function PartAt(parts: seq<string>, i: int): string {
    if 0 <= i < |parts| then parts[i] else ""
  }

  /** The filter of `collectSlugs` on one link: the segment it keeps. */
  function LinkSlug(l: Link): (r: Option<string>)
    ensures r.Some? ==> r.value != [] && '/' !in r.value
  {
    var slug := SlugOf(l.href);
    if slug == [] || Lower(slug) == "artists" || Lower(slug) == "genre" then None
    else
      var parts := Segments(l.pathname);
      var idx := IndexOfPart(parts, "artists");
      var maybe := PartAt(parts, idx + 1);
      if maybe == [] || PartAt(parts, idx + 2) != [] then None else Some(maybe)
  }

  /** A link whose href slug is `artists` or `genre`, in any case, is
      skipped, and so is a path with a segment after the one following
      `artists`. */
  lemma LinkSlugExcludes(l: Link)
    ensures Lower(SlugOf(l.href)) == "artists" || Lower(SlugOf(l.href)) == "genre" ==> LinkSlug(l).None?
    ensures var parts := Segments(l.pathname); var idx := IndexOfPart(parts, "artists");
      0 <= idx && idx + 2 < |parts| ==> LinkSlug(l).None?
  {
  }

  /** The `found` set of one page, in insertion order. */
  function Found(links: seq<Link>): seq<string>
    decreases |links|
  {
    if links == [] then []
    else
      var pre := Found(links[..|links| - 1]);
      match LinkSlug(links[|links| - 1])
      case None => pre
      case Some(x) => AddNew(pre, x)
  }

  /** The `slugs` set after adding a page's `found`. */
  function Merge(slugs: seq<string>, found: seq<string>): (r: seq<string>)
    ensures |r| >= |slugs| && r[..|slugs|] == slugs
    decreases |found|
  {
    if found == [] then slugs else AddNew(Merge(slugs, found[..|found| - 1]), found[|found| - 1])
  }

  /** The state of the paging loop; `failed` when a fetch gave no page. */
  datatype Scan = Scan(page: nat, emptyHits: nat, slugs: seq<string>, failed: bool)

  /** The loop from `page` on. A listing page is read by `fetch`; `None`
      stands for a failed or empty response. */
  function Collect(fetch: nat -> Option<seq<Link>>, page: nat, emptyHits: nat, slugs: seq<string>): (r: Scan)
    requires 1 <= page <= 21
    ensures page <= r.page <= 21
    ensures r.failed || r.page == 21 || r.emptyHits >= 2
    ensures r.failed ==> r.page <= 20
    ensures |r.slugs| >= |slugs| && r.slugs[..|slugs|] == slugs
    decreases 21 - page
  {
    if page > 20 || emptyHits >= 2 then Scan(page, emptyHits, slugs, false)
    else match fetch(page)
      case None => Scan(page, emptyHits, slugs, true)
      case Some(links) =>
        var next := Merge(slugs, Found(links));
        var r := Collect(fetch, page + 1, if |next| == |slugs| then emptyHits + 1 else 0, next);
        assert r.slugs[..|slugs|] == r.slugs[..|next|][..|slugs|];
        r
  }

  /** `collectSlugs`. */
  function CollectedSlugs(fetch: nat -> Option<seq<Link>>): seq<string> {
    Collect(fetch, 1, 0, []).slugs
  }

  /** One page's `found` set. */
  method PageSlugs(links: seq<Link>) returns (found: seq<string>)
    ensures found == Found(links)
  {
    found := [];
    var i := 0;
    while i < |links|
      invariant 0 <= i <= |links|
      invariant found == Found(links[..i])
    {
      assert links[..i + 1][..i] == links[..i];
      var x := LinkSlug(links[i]);
      if x.Some? && x.value !in found {
        found := found + [x.value];
      }
      i := i + 1;
    }
    assert links[..|links|] == links;
  }

  /** Adding a page's slugs, counting the new ones. */
  method AddSlugs(slugs0: seq<string>, found: seq<string>) returns (slugs: seq<string>, newCount: nat)
    ensures slugs == Merge(slugs0, found) && newCount == |slugs| - |slugs0|
  {
    slugs, newCount := slugs0, 0;
    var i := 0;
    while i < |found|
      invariant 0 <= i <= |found|
      invariant slugs == Merge(slugs0, found[..i]) && newCount == |slugs| - |slugs0|
    {
      assert found[..i + 1][..i] == found[..i];
      if found[i] !in slugs {
        slugs := slugs + [found[i]];
        newCount := newCount + 1;
      }
      i := i + 1;
    }
    assert found[..|found|] == found;
  }

  /** The paging loop of `collectSlugs`. */
  method CollectSlugs(fetch: nat -> Option<seq<Link>>) returns (slugs: seq<string>)
    ensures slugs == CollectedSlugs(fetch)
  {
    slugs := [];
    var page := 1;
    var emptyHits := 0;
    while page <= 20 && emptyHits < 2
      invariant 1 <= page <= 21
      invariant Collect(fetch, page, emptyHits, slugs) == Collect(fetch, 1, 0, [])
      decreases 21 - page
    {
      var html := fetch(page);
      if html.None? {
        break;
      }
      var found := PageSlugs(html.value);
      var newCount;
      ghost var before := slugs;
      slugs, newCount := AddSlugs(slugs, found);
      CollectStep(fetch, page, emptyHits, before);
      if newCount == 0 {
        emptyHits := emptyHits + 1;
      } else {
        emptyHits := 0;
      }
      page := page + 1;
    }
    CollectStop(fetch, page, emptyHits, slugs);
  }

  /** One page read by the paging loop. */
  lemma CollectStep(fetch: nat -> Option<seq<Link>>, page: nat, emptyHits: nat, slugs: seq<string>)
    requires 1 <= page <= 20 && emptyHits < 2 && fetch(page).Some?
    ensures var next := Merge(slugs, Found(fetch(page).value));
      Collect(fetch, page, emptyHits, slugs) ==
      Collect(fetch, page + 1, if |next| == |slugs| then emptyHits + 1 else 0, next)
  {
  }

  /** The paging loop stops with the slugs it holds. */
  lemma CollectStop(fetch: nat -> Option<seq<Link>>, page: nat, emptyHits: nat, slugs: seq<string>)
    requires 1 <= page <= 21
    requires page > 20 || emptyHits >= 2 || fetch(page).None?
    ensures Collect(fetch, page, emptyHits, slugs).slugs == slugs
  {
  }

  lemma {:induction false} FoundFacts(links: seq<Link>)
    ensures NoDuplicates(Found(links))
    ensures forall x :: x in Found(links) ==> x != [] && '/' !in x
    decreases |links|
  {
    if links != [] {
      FoundFacts(links[..|links| - 1]);
    }
  }

  lemma {:induction false} MergeFacts(slugs: seq<string>, found: seq<string>)
    requires NoDuplicates(slugs)
    ensures NoDuplicates(Merge(slugs, found))
    ensures forall x :: x in Merge(slugs, found) <==> x in slugs || x in found
    decreases |found|
  {
    if found != [] {
      MergeFacts(slugs, found[..|found| - 1]);
      assert found == found[..|found| - 1] + [found[|found| - 1]];
    }
  }

  /** The collected slugs are distinct and each is one path segment. */
  lemma {:induction false} CollectFacts(fetch: nat -> Option<seq<Link>>, page: nat, emptyHits: nat, slugs: seq<string>)
    requires 1 <= page <= 21 && NoDuplicates(slugs) && forall x :: x in slugs ==> x != [] && '/' !in x
    ensures var r := Collect(fetch, page, emptyHits, slugs).slugs;
      NoDuplicates(r) && forall x :: x in r ==> x != [] && '/' !in x
    decreases 21 - page
  {
    if page <= 20 && emptyHits < 2 && fetch(page).Some? {
      var links := fetch(page).value;
      FoundFacts(links);
      MergeFacts(slugs, Found(links));
      var next := Merge(slugs, Found(links));
      CollectFacts(fetch, page + 1, if |next| == |slugs| then emptyHits + 1 else 0, next);
    }
  }

  /** `collectSlugs` returns distinct one-segment slugs after reading at most
      twenty pages: it stops at page 20, on a failed fetch, or after two
      pages in a row that brought no new slug. */
  lemma CollectSlugsFacts(fetch: nat -> Option<seq<Link>>)
    ensures var r := Collect(fetch, 1, 0, []);
      NoDuplicates(r.slugs) && (forall x :: x in r.slugs ==> x != [] && '/' !in x) &&
      r.page - 1 + (if r.failed then 1 else 0) <= 20 &&
      (r.failed || r.page == 21 || r.emptyHits >= 2)
  {
    CollectFacts(fetch, 1, 0, []);
  }
}
