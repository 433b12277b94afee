/** The schedule scraper of public/scripts/import-programs-from-site.mjs:
    entity decoding, tag stripping, the card filter, the per-day
    de-duplication and the two ways of cutting the page into days. The
    markup heuristics that find a card's fields in its HTML are a
    parameter. */
module ScheduleScrape {
  import opened Common
  import opened Text

  // -------------------------------------------------------------- entities

  /** The five named-entity `replace` calls, in the order of the chain. */
  function DecodeNamed(s: string): string {
    ReplaceAll(ReplaceAll(ReplaceAll(ReplaceAll(ReplaceAll(
      s, "&amp;", "&"), "&quot;", "\""), "&#039;", "'"), "&lt;", "<"), "&gt;", ">")
  }

  /** How many digits start `s`. */
  function DigitRun(s: string): (n: nat)
    ensures n <= |s|
    ensures forall k :: 0 <= k < n ==> IsDigit(s[k])
    ensures n < |s| ==> !IsDigit(s[n])
    decreases |s|
  {
    if s != [] && IsDigit(s[0]) then 1 + DigitRun(s[1..]) else 0
  }

  /** `String.fromCharCode(n)`: the UTF-16 code unit `n mod 2^16`. A lone
      surrogate has no `char` of its own and is written as U+FFFD. */
  function CharOfCode(n: nat): char {
    var u := n % 0x1_0000;
    if 0xD800 <= u < 0xE000 then '\U{FFFD}' else u as char
  }

  /** An `&#N;` reference at the start of `s`: the length of `N`. */
  predicate NumericAt(s: string) {
    |s| >= 2 && s[0] == '&' && s[1] == '#' && DigitRun(s[2..]) > 0 &&
    2 + DigitRun(s[2..]) < |s| && s[2 + DigitRun(s[2..])] == ';'
  }

  /** `replace(/&#(\d+);/g, ...)`, left to right. */
  function DecodeNumeric(s: string): string
    decreases |s|
  {
    if s == [] then []
    else if NumericAt(s) then
      var n := DigitRun(s[2..]);
      [CharOfCode(DecimalValue(s[2..2 + n]))] + DecodeNumeric(s[3 + n..])
    else [s[0]] + DecodeNumeric(s[1..])
  }

  /** `decodeHtmlEntities`. */
  function DecodeEntities(s: string): string {
    DecodeNumeric(DecodeNamed(s))
  }

  lemma {:induction false} DecodeNumericPlain(s: string)
    requires '&' !in s
    ensures DecodeNumeric(s) == s
    decreases |s|
  {
    if s != [] {
      DecodeNumericPlain(s[1..]);
    }
  }

  lemma NoAmpNoEntity(s: string, pat: string, rep: string)
    requires pat != [] && pat[0] == '&' && '&' !in s
    ensures ReplaceAll(s, pat, rep) == s
  {
    forall j: nat ensures !OccursAt(s, pat, j) {
      if j + |pat| <= |s| {
        assert s[j..j + |pat|][0] == s[j];
      }
    }
    ReplaceAllAbsent(s, pat, rep);
  }

  /** Text with no `&` has nothing to decode. */
  lemma DecodePlain(s: string)
    requires '&' !in s
    ensures DecodeEntities(s) == s
  {
    NoAmpNoEntity(s, "&amp;", "&");
    NoAmpNoEntity(s, "&quot;", "\"");
    NoAmpNoEntity(s, "&#039;", "'");
    NoAmpNoEntity(s, "&lt;", "<");
    NoAmpNoEntity(s, "&gt;", ">");
    DecodeNumericPlain(s);
  }

  /** A numeric reference becomes its character, and decoding goes on after
      it. */
  lemma DecodeNumericRef(d: string, t: string)
    requires d != [] && forall k :: 0 <= k < |d| ==> IsDigit(d[k])
    ensures DecodeNumeric("&#" + d + ";" + t) == [CharOfCode(DecimalValue(d))] + DecodeNumeric(t)
  {
    var s := "&#" + d + ";" + t;
    assert s[2..] == d + ";" + t;
    assert DigitRun(s[2..]) == |d| by {
      assert (d + ";" + t)[|d|] == ';';
    }
    assert s[2..2 + |d|] == d;
    assert s[3 + |d|..] == t;
  }

  /** `&amp;` is decoded first, so an escaped entity is decoded twice:
      `"&amp;lt;"` comes out as `"<"`, not as the text `"&lt;"`. */
  lemma DecodeTwice()
    ensures DecodeEntities("&amp;lt;") == "<"
  {
    var a := ReplaceAll("&amp;lt;", "&amp;", "&");
    assert a == "&lt;" by {
      assert "&amp;lt;"[..5] == "&amp;" && "&amp;lt;"[5..] == "lt;";
      NoAmpNoEntity("lt;", "&amp;", "&");
    }
    assert ReplaceAll(a, "&quot;", "\"") == a;
    assert ReplaceAll(a, "&#039;", "'") == a;
    assert ReplaceAll(a, "&lt;", "<") == "<" by {
      assert a[..4] == "&lt;" && a[4..] == [];
    }
    assert ReplaceAll("<", "&gt;", ">") == "<";
    DecodeNumericPlain("<");
  }

  // ------------------------------------------------------------------ tags

  /** `stripTags`: tags become spaces, whitespace runs become one space, the
      ends are trimmed, then the entities are decoded. */
  function StripTags(s: string): string {
    DecodeEntities(CleanText(RemoveTags(s)))
  }

  /** Without `&` in the input there is nothing to decode: the result is the
      cleaned text of the tag-free input, so it is trimmed, single-spaced and
      holds no other whitespace than plain spaces. */
  lemma StripTagsNoEntities(s: string)
    requires '&' !in s
    ensures StripTags(s) == CleanText(RemoveTags(s))
  {
    var t := RemoveTags(s);
    RemoveTagsChars(s);
    CollapseChars(t, c => c != '&');
    TrimKeeps(CollapseSpaces(t), c => c != '&');
    assert CleanText(t) == Trim(CollapseSpaces(t));
    DecodePlain(CleanText(t));
  }

  /** Plain text, with neither `<` nor `&`, only has its whitespace cleaned. */
  lemma StripTagsPlain(s: string)
    requires '<' !in s && '&' !in s
    ensures StripTags(s) == CleanText(s)
  {
    RemoveTagsPlain(s);
    StripTagsNoEntities(s);
  }

  // ----------------------------------------------------------------- cards

  datatype Card = Card(time: string, title: string, desc: string, img: string)

  /** What the markup heuristics of `parseCardsFromChunk` find in a chunk:
      for each `<article>` part its time, image and the HTML fragments of its
      title and description (`""` where nothing matched); and, for the
      fallback, the positions and texts of the time labels and of the
      `Image:` labels. */
  datatype Markup = Markup(articles: seq<Card>, times: seq<(nat, string)>, alts: seq<(nat, string)>)

  /** An article's card, its title and description passed through `strip`
      (which is `StripTags` in the scraper). */
  function Clean(a: Card, strip: string -> string): Card {
    Card(a.time, strip(a.title), strip(a.desc), a.img)
  }

  predicate Complete(c: Card) {
    c.time != [] && c.title != []
  }

  /** The cleaned article cards with both a time and a title, in order. */
  function KeepCards(articles: seq<Card>, strip: string -> string): (r: seq<Card>)
    ensures |r| <= |articles|
    ensures forall k :: 0 <= k < |r| ==> Complete(r[k])
    decreases |articles|
  {
    if articles == [] then []
    else
      var pre := KeepCards(articles[..|articles| - 1], strip);
      var c := Clean(articles[|articles| - 1], strip);
      if Complete(c) then pre + [c] else pre
  }

  /** A card is kept if and only if it is the cleaned form of an article
      and has both fields. */
  lemma {:induction false} KeepCardsExactly(articles: seq<Card>, strip: string -> string, c: Card)
    ensures c in KeepCards(articles, strip) <==> Complete(c) && exists a :: a in articles && Clean(a, strip) == c
    decreases |articles|
  {
    if articles != [] {
      var pre := articles[..|articles| - 1];
      KeepCardsExactly(pre, strip, c);
      assert articles == pre + [articles[|articles| - 1]];
    }
  }

  /** The index of the first `Image:` label at or after `from` placed after
      position `at`. */
  function FirstAfter(alts: seq<(nat, string)>, at: nat, from: nat): (r: Option<nat>)
    requires from <= |alts|
    ensures r.Some? ==> from <= r.value < |alts| && alts[r.value].0 > at
    ensures r.Some? ==> forall j :: from <= j < r.value ==> alts[j].0 <= at
    ensures r.None? ==> forall j :: from <= j < |alts| ==> alts[j].0 <= at
    decreases |alts| - from
  {
    if from == |alts| then None
    else if alts[from].0 > at then Some(from)
    else FirstAfter(alts, at, from + 1)
  }

  /** `alts.find(a => a.idx > t.idx)`: the text of the first `Image:` label
      after position `at`. */
  function NextAlt(alts: seq<(nat, string)>, at: nat): Option<string> {
    match FirstAfter(alts, at, 0)
    case None => None
    case Some(k) => Some(alts[k].1)
  }

  /** The fallback: each time label paired with the cleaned text of the next
      `Image:` label; a time with none after it is dropped. */
  function PairTimes(times: seq<(nat, string)>, alts: seq<(nat, string)>, strip: string -> string): (r: seq<Card>)
    ensures |r| <= |times|
    decreases |times|
  {
    if times == [] then []
    else
      var pre := PairTimes(times[..|times| - 1], alts, strip);
      var t := times[|times| - 1];
      match NextAlt(alts, t.0)
      case None => pre
      case Some(title) => pre + [Card(t.1, strip(title), "", "")]
  }

  /** The cards of a chunk: the complete article cards, or the fallback when
      there are none. */
  function Cards(m: Markup, strip: string -> string): seq<Card> {
    if KeepCards(m.articles, strip) != [] then KeepCards(m.articles, strip) else PairTimes(m.times, m.alts, strip)
  }

  /** `parseCardsFromChunk` once the markup is read: the article loop, then
      the fallback loop. */
  method ParseCards(m: Markup, strip: string -> string) returns (cards: seq<Card>)
    ensures cards == Cards(m, strip)
  {
    cards := [];
    var i := 0;
    while i < |m.articles|
      invariant 0 <= i <= |m.articles|
      invariant cards == KeepCards(m.articles[..i], strip)
    {
      assert m.articles[..i + 1][..i] == m.articles[..i];
      var c := Clean(m.articles[i], strip);
      if c.time != [] && c.title != [] {
        cards := cards + [c];
      }
      i := i + 1;
    }
    assert m.articles[..|m.articles|] == m.articles;
    if cards == [] {
      var k := 0;
      while k < |m.times|
        invariant 0 <= k <= |m.times|
        invariant cards == PairTimes(m.times[..k], m.alts, strip)
      {
        assert m.times[..k + 1][..k] == m.times[..k];
        var next := NextAlt(m.alts, m.times[k].0);
        if next.Some? {
          cards := cards + [Card(m.times[k].1, strip(next.value), "", "")];
        }
        k := k + 1;
      }
      assert m.times[..|m.times|] == m.times;
    }
  }

  // -------------------------------------------------------- de-duplication

  /** The `seen` key of a card. */
  function Key(c: Card): string {
    c.time + "__" + c.title
  }

  function Keys(cs: seq<Card>): set<string> {
    set k | 0 <= k < |cs| :: Key(cs[k])
  }

  /** The first card of each key, in order. */
  function Dedup(cs: seq<Card>): seq<Card>
    decreases |cs|
  {
    if cs == [] then []
    else
      var pre := cs[..|cs| - 1];
      if Key(cs[|cs| - 1]) in Keys(pre) then Dedup(pre) else Dedup(pre) + [cs[|cs| - 1]]
  }

  lemma KeysSnoc(cs: seq<Card>, c: Card)
    ensures Keys(cs + [c]) == Keys(cs) + {Key(c)}
  {
    var t := cs + [c];
    assert forall k :: 0 <= k < |cs| ==> t[k] == cs[k];
    assert t[|cs|] == c;
  }

  /** The loop over one day's cards with its `seen` set. */
  method DedupCards(cs: seq<Card>) returns (out: seq<Card>)
    ensures out == Dedup(cs)
  {
    out := [];
    var seen: set<string> := {};
    var i := 0;
    while i < |cs|
      invariant 0 <= i <= |cs|
      invariant out == Dedup(cs[..i]) && seen == Keys(cs[..i])
    {
      assert cs[..i + 1] == cs[..i] + [cs[i]];
      KeysSnoc(cs[..i], cs[i]);
      var key := Key(cs[i]);
      if key !in seen {
        seen := seen + {key};
        out := out + [cs[i]];
      }
      i := i + 1;
    }
    assert cs[..|cs|] == cs;
  }

  predicate DistinctKeys(cs: seq<Card>) {
    forall i, j :: 0 <= i < j < |cs| ==> Key(cs[i]) != Key(cs[j])
  }

  /** No two cards of a de-duplicated day share a key, and every key of the
      input is still there. */
  lemma {:induction false} DedupDistinct(cs: seq<Card>)
    ensures DistinctKeys(Dedup(cs)) && Keys(Dedup(cs)) == Keys(cs)
    decreases |cs|
  {
    if cs != [] {
      var pre, c := cs[..|cs| - 1], cs[|cs| - 1];
      DedupDistinct(pre);
      KeysSnoc(pre, c);
      assert cs == pre + [c];
      if Key(c) !in Keys(pre) {
        KeysSnoc(Dedup(pre), c);
        var d := Dedup(pre) + [c];
        forall i, j | 0 <= i < j < |d| ensures Key(d[i]) != Key(d[j]) {
          if j == |d| - 1 {
            assert Key(d[i]) in Keys(Dedup(pre));
          }
        }
      }
    }
  }

  /** The card kept for a key is its first occurrence. */
  lemma {:induction false} DedupKeepsFirst(cs: seq<Card>, i: nat)
    requires i < |cs| && forall j :: 0 <= j < i ==> Key(cs[j]) != Key(cs[i])
    ensures cs[i] in Dedup(cs)
    decreases |cs|
  {
    var pre := cs[..|cs| - 1];
    if i < |cs| - 1 {
      DedupKeepsFirst(pre, i);
    } else {
      assert Key(cs[i]) !in Keys(pre);
    }
  }

  /** Every kept card comes from the input. */
  lemma {:induction false} DedupFromInput(cs: seq<Card>)
    ensures forall c :: c in Dedup(cs) ==> c in cs
    decreases |cs|
  {
    if cs != [] {
      DedupFromInput(cs[..|cs| - 1]);
    }
  }

  // ------------------------------------------------------ cutting into days

  const DayKeys: seq<string> := ["mon", "tue", "wed", "thu", "fri", "sat", "sun"]

  predicate IsQuote(c: char) {
    c == '"' || c == '\''
  }

  /** `data-day=["']day["']` at position `i`. */
  predicate MarkerAt(h: string, i: nat, day: string) {
    i + 11 + |day| <= |h| && h[i..i + 9] == "data-day=" && IsQuote(h[i + 9]) &&
    h[i + 10..i + 10 + |day|] == day && IsQuote(h[i + 10 + |day|])
  }

  /** The first marker for `day` at or after `from`. */
  function FindMarker(h: string, day: string, from: nat): (r: Option<nat>)
    requires from <= |h|
    ensures r.Some? ==> from <= r.value < |h| && MarkerAt(h, r.value, day)
    ensures r.Some? ==> forall j: nat :: from <= j < r.value ==> !MarkerAt(h, j, day)
    ensures r.None? ==> forall j: nat :: from <= j ==> !MarkerAt(h, j, day)
    decreases |h| - from
  {
    if from == |h| then None
    else if MarkerAt(h, from, day) then Some(from)
    else FindMarker(h, day, from + 1)
  }

  /** `/data-day=["']day["']/.test(html)`: case-sensitive. */
  predicate HasMarker(h: string, day: string) {
    FindMarker(h, day, 0).Some?
  }


  function NextKey(i: nat): string
    requires i + 1 < 7
  {
    DayKeys[i + 1]
  }

  /** Where Strategy A cuts the page for day `i`: from the first marker of
      the day, found ignoring case, to the first marker of the next day after
      it, or to the end of the page. */
  function ChunkBounds(html: string, i: nat): (r: Option<(nat, nat)>)
    requires i < 7
    ensures r.None? <==> forall j: nat :: !MarkerAt(Lower(html), j, DayKeys[i])
    ensures r.Some? ==> r.value.0 < r.value.1 <= |html|
    ensures r.Some? ==> MarkerAt(Lower(html), r.value.0, DayKeys[i])
    ensures r.Some? ==> forall j: nat :: j < r.value.0 ==> !MarkerAt(Lower(html), j, DayKeys[i])
    ensures r.Some? && i + 1 < 7 ==>
      forall j: nat :: r.value.0 < j < r.value.1 ==> !MarkerAt(Lower(html), j, NextKey(i))
    ensures r.Some? && r.value.1 < |html| ==> i + 1 < 7 && MarkerAt(Lower(html), r.value.1, NextKey(i))
  {
    var lh := Lower(html);
    match FindMarker(lh, DayKeys[i], 0)
    case None => None
    case Some(start) =>
      if i + 1 < 7 then
        match FindMarker(lh, DayKeys[i + 1], start + 1)
        case Some(e) => Some((start, e))
        case None => Some((start, |html|))
      else Some((start, |html|))
  }

  // ------------------------------------------------- Strategy B: day split

  /** `replace(/\s+/g, "")`. */
  function RemoveSpaces(s: string): (r: string)
    ensures forall k :: 0 <= k < |r| ==> !IsSpace(r[k])
    ensures forall c :: c in s && !IsSpace(c) ==> c in r
    decreases |s|
  {
    if s == [] then []
    else if IsSpace(s[0]) then RemoveSpaces(s[1..])
    else
      assert forall c :: c in s ==> c == s[0] || c in s[1..];
      [s[0]] + RemoveSpaces(s[1..])
  }

  /** A card that opens a day: the first card's title, at a time starting
      with `00`. */
  predicate IsAnchor(c: Card, anchor: string) {
    c.title == anchor && StartsWith(RemoveSpaces(c.time), "00")
  }

  /** The state of the split loop: the seven days, the index of the day
      being filled (7 once the loop broke off) and whether the anchor was
      seen. */
  datatype Split = Split(days: seq<seq<Card>>, dayIndex: nat, firstSeen: bool)

  const NoDays: seq<seq<Card>> := [[], [], [], [], [], [], []]

  predicate Shaped(st: Split) {
    |st.days| == 7 && st.dayIndex <= 7
  }

  /** One turn of the loop: an anchor seen before, while the current day
      holds cards, moves on to the next day, and past Sunday the loop stops
      without placing the card. */
  function SplitStep(st: Split, item: Card, anchor: string): (r: Split)
    requires Shaped(st) && st.dayIndex < 7
    ensures Shaped(r)
  {
    if IsAnchor(item, anchor) && st.firstSeen && st.days[st.dayIndex] != [] then
      if st.dayIndex + 1 == 7 then st.(dayIndex := 7)
      else st.(dayIndex := st.dayIndex + 1, days := st.days[st.dayIndex + 1 := st.days[st.dayIndex + 1] + [item]])
    else
      st.(firstSeen := st.firstSeen || IsAnchor(item, anchor), days := st.days[st.dayIndex := st.days[st.dayIndex] + [item]])
  }

  /** The loop over all cards. */
  function SplitAll(items: seq<Card>, anchor: string): (r: Split)
    ensures Shaped(r)
    decreases |items|
  {
    if items == [] then Split(NoDays, 0, false)
    else
      var st := SplitAll(items[..|items| - 1], anchor);
      if st.dayIndex == 7 then st else SplitStep(st, items[|items| - 1], anchor)
  }

  /** The cards of the days, one day after the other. */
  function Flatten(days: seq<seq<Card>>): seq<Card>
    decreases |days|
  {
    if days == [] then [] else Flatten(days[..|days| - 1]) + days[|days| - 1]
  }

  lemma {:induction false} FlattenEmpty(days: seq<seq<Card>>)
    requires forall d :: 0 <= d < |days| ==> days[d] == []
    ensures Flatten(days) == []
    decreases |days|
  {
    if days != [] {
      FlattenEmpty(days[..|days| - 1]);
    }
  }

  /** Appending to the last day that holds cards appends to the whole. */
  lemma {:induction false} FlattenPush(days: seq<seq<Card>>, i: nat, x: Card)
    requires i < |days| && forall d :: i < d < |days| ==> days[d] == []
    ensures Flatten(days[i := days[i] + [x]]) == Flatten(days) + [x]
    decreases |days|
  {
    var e := days[i := days[i] + [x]];
    var n := |days| - 1;
    if i == n {
      assert e[..n] == days[..n];
    } else {
      FlattenPush(days[..n], i, x);
      assert e[..n] == days[..n][i := days[i] + [x]];
    }
  }

  /** What the split guarantees, for a prefix `items` of the cards. */
  predicate SplitOk(st: Split, items: seq<Card>, anchor: string) {
    Shaped(st) &&
    (forall d :: 0 <= d < st.dayIndex && d < 7 ==> st.days[d] != []) &&
    (forall d :: st.dayIndex < d < 7 ==> st.days[d] == []) &&
    (forall d :: 1 <= d <= st.dayIndex && d < 7 ==> st.days[d] != [] && IsAnchor(st.days[d][0], anchor)) &&
    (st.dayIndex < 7 ==> Flatten(st.days) == items) &&
    (st.dayIndex == 7 ==> |Flatten(st.days)| < |items| && Flatten(st.days) == items[..|Flatten(st.days)|])
  }

  lemma SplitStepOk(st: Split, items: seq<Card>, item: Card, anchor: string)
    requires SplitOk(st, items, anchor) && st.dayIndex < 7
    ensures SplitOk(SplitStep(st, item, anchor), items + [item], anchor)
  {
    var r := SplitStep(st, item, anchor);
    if IsAnchor(item, anchor) && st.firstSeen && st.days[st.dayIndex] != [] {
      if st.dayIndex + 1 < 7 {
        FlattenPush(st.days, st.dayIndex + 1, item);
      } else {
        assert (items + [item])[..|items|] == items;
      }
    } else {
      FlattenPush(st.days, st.dayIndex, item);
    }
  }

  /** Strategy B's guarantees: the days before the current one are
      non-empty and the ones after it empty; every day but Monday opens with
      an anchor card; read in order, the days give back the cards, all of
      them unless the split ran past Sunday, and then a prefix with Sunday
      filled. */
  lemma {:induction false} SplitAllOk(items: seq<Card>, anchor: string)
    ensures SplitOk(SplitAll(items, anchor), items, anchor)
    decreases |items|
  {
    if items == [] {
      FlattenEmpty(NoDays);
    } else {
      var pre := items[..|items| - 1];
      SplitAllOk(pre, anchor);
      assert items == pre + [items[|items| - 1]];
      var st := SplitAll(pre, anchor);
      if st.dayIndex < 7 {
        SplitStepOk(st, pre, items[|items| - 1], anchor);
      } else {
        assert items[..|Flatten(st.days)|] == pre[..|Flatten(st.days)|];
      }
    }
  }

  /** Once the split has stopped, later cards change nothing. */
  lemma {:induction false} SplitStopped(items: seq<Card>, n: nat, anchor: string)
    requires n <= |items| && SplitAll(items[..n], anchor).dayIndex == 7
    ensures SplitAll(items, anchor) == SplitAll(items[..n], anchor)
    decreases |items|
  {
    if n < |items| {
      var pre := items[..|items| - 1];
      assert pre[..n] == items[..n];
      SplitStopped(pre, n, anchor);
    } else {
      assert items[..n] == items;
    }
  }

  /** The loop of Strategy B, with its `break`. */
  method SplitDays(all: seq<Card>, anchor: string) returns (days: seq<seq<Card>>)
    ensures days == SplitAll(all, anchor).days
  {
    days := NoDays;
    var dayIndex := 0;
    var firstSeen := false;
    var i := 0;
    while i < |all|
      invariant 0 <= i <= |all| && dayIndex < 7
      invariant Split(days, dayIndex, firstSeen) == SplitAll(all[..i], anchor)
    {
      assert all[..i + 1] == all[..i] + [all[i]];
      var item := all[i];
      if IsAnchor(item, anchor) {
        if !firstSeen {
          firstSeen := true;
        } else if days[dayIndex] != [] {
          dayIndex := dayIndex + 1;
          if dayIndex >= 7 {
            SplitStopped(all, i + 1, anchor);
            return;
          }
        }
      }
      days := days[dayIndex := days[dayIndex] + [item]];
      i := i + 1;
    }
    assert all[..i] == all;
  }

  // ------------------------------------------------------------ the page

  function DedupDays(days: seq<seq<Card>>): (r: seq<seq<Card>>)
    ensures |r| == |days|
  {
    seq(|days|, d requires 0 <= d < |days| => Dedup(days[d]))
  }

  /** The cards of day `i` under Strategy A. */
  function ChunkCards(html: string, i: nat, extract: string -> Markup): seq<Card>
    requires i < 7
  {
    match ChunkBounds(html, i)
    case None => []
    case Some((a, b)) => Dedup(Cards(extract(html[a..b]), StripTags))
  }

  /** Strategy A is used when the page has both a Monday and a Sunday
      marker, written in lower case. */
  predicate HasDaySections(html: string) {
    HasMarker(html, "mon") && HasMarker(html, "sun")
  }

  /** Strategy A's week. */
  function SectionWeek(html: string, extract: string -> Markup): (r: seq<seq<Card>>)
    ensures |r| == 7
  {
    seq(7, i requires 0 <= i < 7 => ChunkCards(html, i, extract))
  }

  /** Strategy B's week, the first card's title as the anchor. */
  function AnchorWeek(html: string, extract: string -> Markup): (r: seq<seq<Card>>)
    ensures |r| == 7
  {
    var all := Cards(extract(html), StripTags);
    if all == [] then NoDays else DedupDays(SplitAll(all, all[0].title).days)
  }

  /** `scrapeScheduleFromHtml`: the seven days' cards, Monday first. */
  function ScheduleOf(html: string, extract: string -> Markup): (r: seq<seq<Card>>)
    ensures |r| == 7
  {
    if HasDaySections(html) then SectionWeek(html, extract) else AnchorWeek(html, extract)
  }

  /** The loop of Strategy A over the seven day keys. */
  method ScrapeSections(html: string, extract: string -> Markup) returns (schedule: seq<seq<Card>>)
    ensures schedule == SectionWeek(html, extract)
  {
    schedule := NoDays;
    var i := 0;
    while i < 7
      invariant 0 <= i <= 7 && |schedule| == 7
      invariant forall d :: 0 <= d < i ==> schedule[d] == ChunkCards(html, d, extract)
      invariant forall d :: i <= d < 7 ==> schedule[d] == []
    {
      var bounds := ChunkBounds(html, i);
      if bounds.Some? {
        var cards := ParseCards(extract(html[bounds.value.0..bounds.value.1]), StripTags);
        var kept := DedupCards(cards);
        schedule := schedule[i := kept];
      }
      i := i + 1;
    }
  }

  /** Strategy B: one parse of the whole page, the split, then the
      de-duplication of each day. */
  method ScrapeByAnchor(html: string, extract: string -> Markup) returns (schedule: seq<seq<Card>>)
    ensures schedule == AnchorWeek(html, extract)
  {
    schedule := NoDays;
    var all := ParseCards(extract(html), StripTags);
    if all == [] {
      return;
    }
    var days := SplitDays(all, all[0].title);
    var d := 0;
    while d < 7
      invariant 0 <= d <= 7 && |schedule| == 7
      invariant forall k :: 0 <= k < d ==> schedule[k] == Dedup(days[k])
    {
      var kept := DedupCards(days[d]);
      schedule := schedule[d := kept];
      d := d + 1;
    }
  }

  /** `scrapeScheduleFromHtml`. */
  method ScrapeSchedule(html: string, extract: string -> Markup) returns (schedule: seq<seq<Card>>)
    ensures schedule == ScheduleOf(html, extract)
  {
    if HasDaySections(html) {
      schedule := ScrapeSections(html, extract);
    } else {
      schedule := ScrapeByAnchor(html, extract);
    }
  }

  /** No day of the scraped schedule holds two cards with the same time and
      title. */
  lemma ScheduleDistinct(html: string, extract: string -> Markup)
    ensures forall d :: 0 <= d < 7 ==> DistinctKeys(ScheduleOf(html, extract)[d])
  {
    var r := ScheduleOf(html, extract);
    forall d | 0 <= d < 7 ensures DistinctKeys(r[d]) {
      if HasDaySections(html) {
        var b := ChunkBounds(html, d);
        if b.Some? {
          DedupDistinct(Cards(extract(html[b.value.0..b.value.1]), StripTags));
        }
      } else {
        var all := Cards(extract(html), StripTags);
        if all != [] {
          DedupDistinct(SplitAll(all, all[0].title).days[d]);
        }
      }
    }
  }

  /** Under Strategy A a day without a marker of its own (in any case) is
      empty, whatever the other days hold. */
  lemma DayWithoutMarker(html: string, extract: string -> Markup, d: nat)
    requires d < 7 && HasDaySections(html)
    requires forall j: nat :: !MarkerAt(Lower(html), j, DayKeys[d])
    ensures ScheduleOf(html, extract)[d] == []
  {
  }

  /** Under Strategy B every scheduled card is one of the page's cards, the
      days read in order give back the page's cards up to the de-duplication,
      and a page with no cards gives an empty week. */
  lemma StrategyB(html: string, extract: string -> Markup)
    requires !HasDaySections(html)
    ensures Cards(extract(html), StripTags) == [] ==> ScheduleOf(html, extract) == NoDays
    ensures forall d, c :: 0 <= d < 7 && c in ScheduleOf(html, extract)[d] ==> c in Cards(extract(html), StripTags)
  {
    var all := Cards(extract(html), StripTags);
    if all != [] {
      var st := SplitAll(all, all[0].title);
      SplitAllOk(all, all[0].title);
      forall d, c | 0 <= d < 7 && c in ScheduleOf(html, extract)[d] ensures c in all {
        DedupFromInput(st.days[d]);
        FlattenHas(st.days, d, c);
      }
    }
  }

  /** A card of one day is in the flattened days. */
  lemma {:induction false} FlattenHas(days: seq<seq<Card>>, d: nat, c: Card)
    requires d < |days| && c in days[d]
    ensures c in Flatten(days)
    decreases |days|
  {
    if d < |days| - 1 {
      FlattenHas(days[..|days| - 1], d, c);
    }
  }
}
