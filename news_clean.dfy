/** The clean-up pass of public/scripts/clean-news.mjs over the exported
    news items: the share, copy-button and emoji-image removals, the
    reduction to a trailing `details` block, the newline squeeze, and the
    excerpt rule. Reading and writing the JSON files is outside the model;
    an item is the map of its fields. */
module NewsClean {
  import opened Common
  import opened Text
  import NewsExport

  // --------------------------------------------------------------- removals

  /** A global `replace(re, "")` for a pattern ending in `\s*`: from
      `from` on, every match is deleted, left to right, the search resuming
      after it. `m(h, i)` is where the match starting at `i` ends before
      its trailing `\s*`, if there is one; the greedy `\s*` then takes all
      the whitespace that follows. The patterns here only match non-empty
      text inside `h`, and anything else ends the scan. */
  function RemoveAll(h: string, from: nat, m: (string, nat) -> Option<nat>): (r: string)
    requires from <= |h|
    ensures |r| <= |h| - from
    decreases |h| - from
  {
    if from == |h| then []
    else match m(h, from)
      case Some(e) => if from < e <= |h| then RemoveAll(h, SkipSpaces(h, e), m) else h[from..]
      case None => [h[from]] + RemoveAll(h, from + 1, m)
  }

  /** Positions where nothing matches are kept as they are. */
  lemma {:induction false} RemoveAllKeeps(h: string, from: nat, k: nat, m: (string, nat) -> Option<nat>)
    requires from <= k <= |h|
    requires forall i :: from <= i < k ==> m(h, i).None?
    ensures RemoveAll(h, from, m) == h[from..k] + RemoveAll(h, k, m)
    decreases k - from
  {
    if from < k {
      RemoveAllKeeps(h, from + 1, k, m);
      assert RemoveAll(h, from, m) == [h[from]] + RemoveAll(h, from + 1, m);
      KeepStep(h, from, k, RemoveAll(h, from, m), RemoveAll(h, from + 1, m), RemoveAll(h, k, m));
    }
  }

  lemma KeepStep(h: string, from: nat, k: nat, a: string, b: string, rest: string)
    requires from < k <= |h|
    requires a == [h[from]] + b && b == h[from + 1..k] + rest
    ensures a == h[from..k] + rest
  {
    assert h[from..k] == [h[from]] + h[from + 1..k];
  }

  /** A text in which nothing matches is left unchanged. */
  lemma RemoveAllNone(h: string, m: (string, nat) -> Option<nat>)
    requires forall i :: 0 <= i < |h| ==> m(h, i).None?
    ensures RemoveAll(h, 0, m) == h
  {
    RemoveAllKeeps(h, 0, |h|, m);
  }

  /** The stop characters of `[^>]` and `[^"]`. */
  predicate IsTagEnd(c: char) {
    c == '>'
  }

  predicate IsQuote(c: char) {
    c == '"'
  }

  const ShareOpen := "<div class=\"share\">"
  const DivClose := "</div>"

  /** `<div class="share">[\s\S]*?<\/div>`, ignoring case, at `i`: up to
      the end of the first `</div>` after the opening tag. */
  function ShareAt(h: string, i: nat): (r: Option<nat>)
    ensures r.Some? ==> OccursAtCI(h, ShareOpen, i) && i < r.value <= |h|
  {
    BlockAt(h, i, ShareOpen, DivClose)
  }

  /** `open[\s\S]*?close` at `i`: up to the end of the first `close` after
      `open`. */
  function BlockAt(h: string, i: nat, open: string, close: string): (r: Option<nat>)
    ensures r.Some? ==> OccursAtCI(h, open, i) && i + |open| + |close| <= r.value <= |h|
  {
    if !OccursAtCI(h, open, i) then None
    else match FindCI(h, close, i + |open|)
      case None => None
      case Some(q) => Some(q + |close|)
  }

  const CopyId := "id=\"copyurl\""
  const ButtonClose := "</button>"

  /** `<button[^>]*id="copyUrl"[\s\S]*?<\/button>`, ignoring case, at
      `i`: the opening tag must hold `id="copyUrl"` before its first `>`,
      and the match runs to the end of the first `</button>` after that
      attribute. The greedy `[^>]*` settles on the last such
      attribute of the tag, but no `</button>` can start before the end of
      either, so the match ends at the same place. */
  function CopyAt(h: string, i: nat): (r: Option<nat>)
    ensures r.Some? ==> OccursAtCI(h, "<button", i) && i < r.value <= |h|
  {
    TagBlockAt(h, i, "<button", CopyId, ButtonClose)
  }

  /** `open[^>]*attr[\s\S]*?close` at `i`. */
  function TagBlockAt(h: string, i: nat, open: string, attr: string, close: string): (r: Option<nat>)
    ensures r.Some? ==> OccursAtCI(h, open, i) && i + |open| <= r.value <= |h|
  {
    if !OccursAtCI(h, open, i) then None
    else CopyRest(h, i + |open|, RunUntil(h, i + |open|, IsTagEnd), attr, close)
  }

  /** The rest of a match of `[^>]*attr[\s\S]*?close` once the `[^>]*`,
      from `from`, is known to stop at `tagEnd`: the first `attr` must end
      inside the tag, and the match ends with the first `close` after it. */
  function CopyRest(h: string, from: nat, tagEnd: nat, attr: string, close: string): (r: Option<nat>)
    ensures r.Some? ==> from <= r.value <= |h|
  {
    match FindCI(h, attr, from)
    case None => None
    case Some(p) =>
      if p + |attr| > tagEnd then None
      else match FindCI(h, close, p + |attr|)
        case None => None
        case Some(q) => Some(q + |close|)
  }

  const FbHost := "static.xx.fbcdn.net"

  /** `<img[^>]+static\.xx\.fbcdn\.net[^>]*>`, ignoring case, at `i`: an
      image tag whose attributes mention the emoji host. */
  function FbAt(h: string, i: nat): (r: Option<nat>)
    ensures r.Some? ==> OccursAtCI(h, "<img", i) && i < r.value <= |h|
  {
    TagWithAt(h, i, "<img", FbHost)
  }

  /** `open[^>]+attr[^>]*>` at `i`: an opening tag that mentions `attr`
      after at least one character and before its first `>`. */
  function TagWithAt(h: string, i: nat, open: string, attr: string): (r: Option<nat>)
    ensures r.Some? ==> OccursAtCI(h, open, i) && i + |open| < r.value <= |h|
  {
    if !OccursAtCI(h, open, i) then None
    else
      var tagEnd := RunUntil(h, i + |open|, IsTagEnd);
      if tagEnd == |h| then None
      else match FindCI(h, attr, i + |open| + 1)
        case None => None
        case Some(p) => if p + |attr| > tagEnd then None else Some(tagEnd + 1)
  }

  /** Each of the three patterns starts with `<`. */
  lemma NoMatchWithoutTag(h: string, i: nat)
    requires i < |h| && h[i] != '<'
    ensures ShareAt(h, i).None? && CopyAt(h, i).None? && FbAt(h, i).None?
  {
    NoShareWithoutTag(h, i);
    assert LowerChar(h[i]) != '<';
    NotAtCI(h, "<button", i);
    NotAtCI(h, "<img", i);
  }

  lemma NoShareWithoutTag(h: string, i: nat)
    requires i < |h| && h[i] != '<'
    ensures ShareAt(h, i).None?
  {
    assert LowerChar(h[i]) != '<';
    NotAtCI(h, ShareOpen, i);
  }

  /** The literal tags are written in lower case. */
  lemma TagsLowered()
    ensures Lowered(ShareOpen) && Lowered(DivClose) && Lowered(DetailsOpen)
  {
  }

  /** The first share block, with the whitespace after it, is deleted and
      the text before it is kept, whatever markup it holds. The block opens
      at `n`, the first share opening tag, and `q` is the first `</div>`
      after that tag. */
  lemma RemovesShareBlock(h: string, n: nat, q: nat)
    requires OccursAtCI(h, ShareOpen, n) && FirstAtCI(h, DivClose, n + |ShareOpen|, q)
    requires forall j :: 0 <= j < n ==> !OccursAtCI(h, ShareOpen, j)
    ensures RemoveAll(h, 0, ShareAt) == h[..n] + RemoveAll(h, SkipSpaces(h, q + |DivClose|), ShareAt)
  {
    ShareAtSpan(h, n, q);
    RemovesFirstMatch(h, n, q + |DivClose|, ShareAt);
  }

  /** Text before the first match is kept; the match and the whitespace
      after it are dropped. */
  lemma RemovesFirstMatch(h: string, n: nat, e: nat, m: (string, nat) -> Option<nat>)
    requires n < e <= |h| && m(h, n) == Some(e)
    requires forall i :: 0 <= i < n ==> m(h, i).None?
    ensures RemoveAll(h, 0, m) == h[..n] + RemoveAll(h, SkipSpaces(h, e), m)
  {
    RemoveAllKeeps(h, 0, n, m);
    assert RemoveAll(h, n, m) == RemoveAll(h, SkipSpaces(h, e), m);
  }

  /** The match of a share block, stated on positions. */
  lemma ShareAtSpan(h: string, n: nat, q: nat)
    requires OccursAtCI(h, ShareOpen, n) && FirstAtCI(h, DivClose, n + |ShareOpen|, q)
    ensures ShareAt(h, n) == Some(q + |DivClose|)
  {
    BlockAtSpan(h, n, q, ShareOpen, DivClose);
  }

  lemma BlockAtSpan(h: string, n: nat, q: nat, open: string, close: string)
    requires OccursAtCI(h, open, n) && FirstAtCI(h, close, n + |open|, q)
    ensures BlockAt(h, n, open, close) == Some(q + |close|)
  {
    FindCIAt(h, close, n + |open|, q);
  }

  /** A button holding `id="copyUrl"` in its opening tag is matched up to
      the end of the first `</button>` after that attribute: `e` is where
      the opening tag's `[^>]*` stops, `p` the first such attribute and
      `c` the first `</button>` after it. */
  lemma CopyAtSpan(h: string, i: nat, e: nat, p: nat, c: nat)
    requires OccursAtCI(h, "<button", i) && TagEnds(h, i + 7, e)
    requires FirstAtCI(h, CopyId, i + 7, p) && p + |CopyId| <= e
    requires FirstAtCI(h, ButtonClose, p + |CopyId|, c)
    ensures CopyAt(h, i) == Some(c + |ButtonClose|)
  {
    TagBlockSpan(h, i, e, p, c, "<button", CopyId, ButtonClose);
  }

  lemma TagBlockSpan(h: string, i: nat, e: nat, p: nat, c: nat, open: string, attr: string, close: string)
    requires OccursAtCI(h, open, i) && TagEnds(h, i + |open|, e)
    requires FirstAtCI(h, attr, i + |open|, p) && p + |attr| <= e
    requires FirstAtCI(h, close, p + |attr|, c)
    ensures TagBlockAt(h, i, open, attr, close) == Some(c + |close|)
  {
    TagEndAt(h, i + |open|, e);
    CopyRestSpan(h, i + |open|, e, attr, close, p, c);
  }

  /** A `[^>]*` started at `from` stops at `e`. */
  predicate TagEnds(h: string, from: nat, e: nat) {
    from <= e <= |h| && (e < |h| ==> h[e] == '>') && forall k :: from <= k < e ==> h[k] != '>'
  }

  lemma TagEndAt(h: string, from: nat, e: nat)
    requires TagEnds(h, from, e)
    ensures RunUntil(h, from, IsTagEnd) == e
  {
    if e < |h| {
      RunUntilAt(h, from, e, IsTagEnd);
    } else {
      RunUntilEnd(h, from, IsTagEnd);
    }
  }

  lemma CopyRestSpan(h: string, from: nat, tagEnd: nat, attr: string, close: string, p: nat, c: nat)
    requires FirstAtCI(h, attr, from, p) && p + |attr| <= tagEnd
    requires FirstAtCI(h, close, p + |attr|, c)
    ensures CopyRest(h, from, tagEnd, attr, close) == Some(c + |close|)
  {
    FindCIAt(h, attr, from, p);
    FindCIAt(h, close, p + |attr|, c);
  }

  /** An image tag that mentions the emoji host before its closing `>` at
      `e` is matched up to that `>`. */
  lemma FbAtSpan(h: string, i: nat, e: nat, p: nat)
    requires OccursAtCI(h, "<img", i) && TagEnds(h, i + 4, e) && e < |h|
    requires i + 5 <= p && p + |FbHost| <= e && OccursAtCI(h, FbHost, p)
    ensures FbAt(h, i) == Some(e + 1)
  {
    TagWithSpan(h, i, e, p, "<img", FbHost);
  }

  lemma TagWithSpan(h: string, i: nat, e: nat, p: nat, open: string, attr: string)
    requires OccursAtCI(h, open, i) && TagEnds(h, i + |open|, e) && e < |h|
    requires i + |open| + 1 <= p && p + |attr| <= e && OccursAtCI(h, attr, p)
    ensures TagWithAt(h, i, open, attr) == Some(e + 1)
  {
    TagEndAt(h, i + |open|, e);
    assert FindCI(h, attr, i + |open| + 1).Some?;
  }

  // ------------------------------------------------------ the details block

  const DetailsOpen := "<div class=\"details"
  const DetailsTag := "<div class=\"details\">"

  /** Where the trailing whitespace of `h` starts. */
  function TrailStart(h: string): (t: nat)
    ensures t <= |h|
    ensures forall k :: t <= k < |h| ==> IsSpace(h[k])
    ensures t > 0 ==> !IsSpace(h[t - 1])
    decreases |h|
  {
    if h != [] && IsSpace(h[|h| - 1]) then TrailStart(h[..|h| - 1]) else |h|
  }

  /** `<\/div>\s*$`: the `</div>` followed only by whitespace, if any. */
  function TrailingClose(h: string): (r: Option<nat>)
    ensures r.Some? ==> OccursAtCI(h, DivClose, r.value) && forall k :: r.value + |DivClose| <= k < |h| ==> IsSpace(h[k])
  {
    var t := TrailStart(h);
    if t >= |DivClose| && OccursAtCI(h, DivClose, t - |DivClose|) then Some(t - |DivClose|) else None
  }

  /** There is only one such `</div>`, since its `>` is not whitespace. */
  lemma TrailingCloseUnique(h: string, q: nat)
    requires OccursAtCI(h, DivClose, q)
    requires forall k :: q + |DivClose| <= k < |h| ==> IsSpace(h[k])
    ensures TrailingClose(h) == Some(q)
  {
    var t := TrailStart(h);
    assert LowerChar(h[q + 5]) == DivClose[5] == '>';
    CaseKeepsSpace(h[q + 5]);
    assert !IsSpace(h[q + 5]);
  }

  /** `<div class="details[^"]*">` at `i`: where the block's content
      starts. */
  function DetailsBodyAt(h: string, i: nat): (r: Option<nat>)
    ensures r.Some? ==> OccursAtCI(h, DetailsOpen, i) && i + |DetailsOpen| + 2 <= r.value <= |h|
  {
    if !OccursAtCI(h, DetailsOpen, i) then None
    else
      var r := RunUntil(h, i + |DetailsOpen|, IsQuote);
      if r + 1 < |h| && h[r + 1] == '>' then Some(r + 2) else None
  }

  /** An opening tag at `j` whose content starts no later than `q`. */
  predicate DetailsWithin(h: string, j: nat, q: nat) {
    match DetailsBodyAt(h, j)
    case Some(b) => b <= q
    case None => false
  }

  /** The leftmost opening tag at or after `from` whose content starts no
      later than `q`. */
  function FindDetails(h: string, from: nat, q: nat): (r: Option<nat>)
    ensures r.Some? ==> from <= r.value && DetailsWithin(h, r.value, q)
    ensures r.Some? ==> forall j :: from <= j < r.value ==> !DetailsWithin(h, j, q)
    ensures r.None? ==> forall j :: from <= j ==> !DetailsWithin(h, j, q)
    decreases |h| - from
  {
    if from >= |h| then None
    else if DetailsWithin(h, from, q) then Some(from)
    else FindDetails(h, from + 1, q)
  }

  /** `keepOnlyDetailsIfPresent`: when the text ends with a
      `<div class="details…">` block, only that block is kept, its content
      trimmed and its class reduced to `details`. The block is the leftmost
      opening tag whose content can reach the one `</div>` that only
      whitespace follows. */
  function KeepDetails(h: string): string {
    match TrailingClose(h)
    case None => h
    case Some(q) =>
      match FindDetails(h, 0, q)
      case None => h
      case Some(i) => DetailsTag + Trim(h[DetailsBodyAt(h, i).value..q]) + DivClose
  }

  /** Without a details opening tag the text is left as it is. */
  lemma KeepDetailsAbsent(h: string)
    requires !ContainsCI(h, DetailsOpen)
    ensures KeepDetails(h) == h
  {
  }

  /** A text ending in a details block, whatever its class suffix `cls`,
      followed by whitespace, is reduced to `<div class="details">`, the
      trimmed content and `</div>`: the text `pre` before the block, which
      holds no details opening tag of its own, is dropped. */
  lemma KeepDetailsBlock(pre: string, cls: string, inner: string, ws: string)
    requires !ContainsCI(pre, DetailsOpen) && '"' !in cls && AllSpace(ws)
    ensures KeepDetails(pre + DetailsOpen + cls + "\">" + inner + DivClose + ws) == DetailsTag + Trim(inner) + DivClose
  {
    BlockShape(pre, cls, inner, ws);
    KeepDetailsSpan(pre + DetailsOpen + cls + "\">" + inner + DivClose + ws, |pre|, |pre| + |DetailsOpen| + |cls| + 2, inner);
  }

  /** The first details opening tag is at `i` and its content, `inner`,
      starts at `b` and runs to a `</div>` that only whitespace follows. */
  predicate DetailsShape(h: string, i: nat, b: nat, inner: string) {
    var q := b + |inner|;
    DetailsBodyAt(h, i) == Some(b) && q <= |h| && h[b..q] == inner &&
    (forall j :: 0 <= j < i ==> !OccursAtCI(h, DetailsOpen, j)) &&
    OccursAtCI(h, DivClose, q) && (forall k :: q + |DivClose| <= k < |h| ==> IsSpace(h[k]))
  }

  lemma BlockShape(pre: string, cls: string, inner: string, ws: string)
    requires !ContainsCI(pre, DetailsOpen) && '"' !in cls && AllSpace(ws)
    ensures DetailsShape(pre + DetailsOpen + cls + "\">" + inner + DivClose + ws, |pre|, |pre| + |DetailsOpen| + |cls| + 2, inner)
  {
    var h := pre + DetailsOpen + cls + "\">" + inner + DivClose + ws;
    BlockFacts(pre, cls, inner, ws);
    NoDetailsBefore(h, |pre|);
  }

  /** The opening tag after `pre`, the content and the closing `</div>` of
      a block. */
  lemma BlockFacts(pre: string, cls: string, inner: string, ws: string)
    requires '"' !in cls && AllSpace(ws)
    ensures var a := pre + DetailsOpen + cls + "\">"; var h := a + inner + DivClose + ws; var q := |a| + |inner|;
      DetailsBodyAt(h, |pre|) == Some(|a|) && OccursAtCI(h, DivClose, q) &&
      (forall k :: q + |DivClose| <= k < |h| ==> IsSpace(h[k])) && h[|a|..q] == inner &&
      |pre| < |h| && h[..|pre|] == pre && h[|pre|] == '<'
  {
    var a := pre + DetailsOpen + cls + "\">";
    BodyAt(pre, cls, inner + DivClose + ws);
    Regroup(a, inner, DivClose, ws);
    CloseAt(a + inner, ws);
    PrefixOfBlock(pre, cls, inner + DivClose + ws);
    PrefixOfJoin(a, inner + DivClose + ws, |pre|);
  }

  lemma PrefixOfJoin(a: string, b: string, n: nat)
    requires n < |a|
    ensures (a + b)[..n] == a[..n] && (a + b)[n] == a[n]
  {
  }

  /** No details opening tag starts before `n` when `h[..n]` holds none and
      `h[n]` is `<`. */
  lemma NoDetailsBefore(h: string, n: nat)
    requires n < |h| && h[n] == '<' && !ContainsCI(h[..n], DetailsOpen)
    ensures forall j :: 0 <= j < n ==> !OccursAtCI(h, DetailsOpen, j)
  {
    DetailsOpenOneLt();
    forall j | 0 <= j < n ensures !OccursAtCI(h, DetailsOpen, j) {
      NoStraddle(h, n, DetailsOpen, j);
    }
  }

  /** Where the block's opening tag sits after `pre`. */
  lemma PrefixOfBlock(pre: string, cls: string, rest: string)
    ensures var a := pre + DetailsOpen + cls + "\">";
      |a| == |pre| + |DetailsOpen| + |cls| + 2 && a[..|pre|] == pre && a[|pre|] == '<'
  {
    var a := pre + DetailsOpen + cls + "\">";
    assert a[|pre|] == DetailsOpen[0];
  }

  /** An occurrence of `pat` before `n` lies inside `h[..n]` unless it
      reaches `h[n]`, which no later character of `pat` matches. */
  lemma NoStraddle(h: string, n: nat, pat: string, j: nat)
    requires j < n < |h| && !ContainsCI(h[..n], pat)
    requires forall k :: 1 <= k < |pat| ==> pat[k] != LowerChar(h[n])
    ensures !OccursAtCI(h, pat, j)
  {
    if j + |pat| <= n {
      assert !OccursAtCI(h[..n], pat, j);
      assert forall m :: 0 <= m < n ==> h[..n][m] == h[m];
    } else if j + |pat| <= |h| {
      var k := n - j;
      assert LowerChar(h[j + k]) != pat[k];
    }
  }

  /** Apart from its first character, the opening tag holds no `<`. */
  lemma DetailsOpenOneLt()
    ensures DetailsOpen[0] == '<' && forall k :: 1 <= k < |DetailsOpen| ==> DetailsOpen[k] != '<'
  {
  }

  /** Where the pieces of a four-piece text sit. */
  lemma Regroup(a: string, b: string, c: string, d: string)
    ensures a + b + c + d == a + (b + c + d)
    ensures (a + b + c + d)[|a|..|a| + |b|] == b
  {
    assert (a + b + c + d)[|a|..|a| + |b|] == (a + (b + c + d))[|a|..|a| + |b|];
  }

  /** The reduction, stated on positions: the first details opening tag is
      at `i`, its content `inner` runs from `b` to a `</div>` that only
      whitespace follows; everything before `i` is dropped. */
  lemma KeepDetailsSpan(h: string, i: nat, b: nat, inner: string)
    requires DetailsShape(h, i, b, inner)
    ensures KeepDetails(h) == DetailsTag + Trim(inner) + DivClose
  {
    var q := b + |inner|;
    assert TrailingClose(h) == Some(q) && FindDetails(h, 0, q) == Some(i) by {
      TrailingCloseUnique(h, q);
      NoneWithinBefore(h, i, q);
      FindDetailsAt(h, i, q);
    }
    KeepDetailsFrom(h, q, i, b, inner);
  }

  lemma NoneWithinBefore(h: string, i: nat, q: nat)
    requires forall j :: 0 <= j < i ==> !OccursAtCI(h, DetailsOpen, j)
    ensures forall j :: 0 <= j < i ==> !DetailsWithin(h, j, q)
  {
    forall j | 0 <= j < i ensures !DetailsWithin(h, j, q) {
      assert DetailsBodyAt(h, j).None?;
    }
  }

  lemma KeepDetailsFrom(h: string, q: nat, i: nat, b: nat, inner: string)
    requires TrailingClose(h) == Some(q) && FindDetails(h, 0, q) == Some(i) && DetailsBodyAt(h, i) == Some(b)
    requires b <= q <= |h| && h[b..q] == inner
    ensures KeepDetails(h) == DetailsTag + Trim(inner) + DivClose
  {
  }

  /** The leftmost opening tag that reaches `q` is the one found. */
  lemma FindDetailsAt(h: string, i: nat, q: nat)
    requires DetailsWithin(h, i, q) && forall j :: 0 <= j < i ==> !DetailsWithin(h, j, q)
    ensures FindDetails(h, 0, q) == Some(i)
  {
  }

  lemma CloseAt(x: string, ws: string)
    requires AllSpace(ws)
    ensures var h := x + DivClose + ws;
      OccursAtCI(h, DivClose, |x|) && forall k :: |x| + |DivClose| <= k < |h| ==> IsSpace(h[k])
  {
    TagsLowered();
    OccursAtCIJoin(x, DivClose, ws);
    var h := x + DivClose + ws;
    assert forall k :: |x| + |DivClose| <= k < |h| ==> h[k] == ws[k - |x| - |DivClose|];
  }

  lemma BodyAt(pre: string, cls: string, rest: string)
    requires '"' !in cls
    ensures DetailsBodyAt(pre + DetailsOpen + cls + "\">" + rest, |pre|) == Some(|pre| + |DetailsOpen| + |cls| + 2)
  {
    var h := pre + DetailsOpen + cls + "\">" + rest;
    var n := |pre| + |DetailsOpen|;
    TagsLowered();
    assert h == pre + DetailsOpen + (cls + "\">" + rest);
    OccursAtCIJoin(pre, DetailsOpen, cls + "\">" + rest);
    assert forall k :: n <= k < n + |cls| ==> h[k] == cls[k - n];
    assert h[n + |cls|] == '"' && h[n + |cls| + 1] == '>';
    RunUntilAt(h, n, n + |cls|, IsQuote);
  }

  /** Reducing twice is reducing once. */
  lemma KeepDetailsIdempotent(h: string)
    ensures KeepDetails(KeepDetails(h)) == KeepDetails(h)
  {
    if KeepDetails(h) != h {
      var q := TrailingClose(h).value;
      var i := FindDetails(h, 0, q).value;
      var inner := Trim(h[DetailsBodyAt(h, i).value..q]);
      ReducedForm(inner);
      TrimOfTrimmed(inner);
    }
  }

  /** A reduced block reduces to itself with its content trimmed. */
  lemma ReducedForm(inner: string)
    ensures KeepDetails(DetailsTag + inner + DivClose) == DetailsTag + Trim(inner) + DivClose
  {
    assert DetailsTag + inner + DivClose == [] + DetailsOpen + "" + "\">" + inner + DivClose + "";
    KeepDetailsBlock([], "", inner, "");
  }

  // ---------------------------------------------------------------- newlines

  /** No three newlines in a row. */
  predicate NoTripleNewline(r: string) {
    forall k :: 0 <= k < |r| - 2 ==> !(r[k] == '\n' && r[k + 1] == '\n' && r[k + 2] == '\n')
  }

  /** `replace(/\n{3,}/g, "\n\n")` from `from` on: every run of three or
      more newlines becomes two. */
  function Squeeze(s: string, from: nat): (r: string)
    requires from <= |s|
    ensures r == [] <==> from == |s|
    ensures from < |s| && s[from] != '\n' ==> r[0] == s[from]
    decreases |s| - from
  {
    if from == |s| then []
    else if s[from] != '\n' then [s[from]] + Squeeze(s, from + 1)
    else
      var e := RunUntil(s, from, c => c != '\n');
      (if e - from >= 3 then "\n\n" else s[from..e]) + Squeeze(s, e)
  }

  lemma {:induction false} SqueezeNoTriple(s: string, from: nat)
    requires from <= |s|
    ensures NoTripleNewline(Squeeze(s, from))
    decreases |s| - from
  {
    if from < |s| {
      if s[from] != '\n' {
        SqueezeNoTriple(s, from + 1);
        NoTripleCons(s[from], Squeeze(s, from + 1));
      } else {
        var e := RunUntil(s, from, c => c != '\n');
        SqueezeNoTriple(s, e);
        var chunk := if e - from >= 3 then "\n\n" else s[from..e];
        NoTripleJoin(chunk, Squeeze(s, e));
      }
    }
  }

  lemma NoTripleCons(c: char, b: string)
    requires c != '\n' && NoTripleNewline(b)
    ensures NoTripleNewline([c] + b)
  {
    var r := [c] + b;
    forall k | 1 <= k < |r| - 2 ensures !(r[k] == '\n' && r[k + 1] == '\n' && r[k + 2] == '\n') {
      assert r[k] == b[k - 1] && r[k + 1] == b[k] && r[k + 2] == b[k + 1];
    }
  }

  lemma NoTripleJoin(a: string, b: string)
    requires |a| <= 2 && NoTripleNewline(b) && (b == [] || b[0] != '\n')
    ensures NoTripleNewline(a + b)
  {
    var r := a + b;
    forall k | 0 <= k < |r| - 2 ensures !(r[k] == '\n' && r[k + 1] == '\n' && r[k + 2] == '\n') {
      if k >= |a| {
        assert r[k] == b[k - |a|] && r[k + 1] == b[k + 1 - |a|] && r[k + 2] == b[k + 2 - |a|];
      } else if k + 1 == |a| {
        assert r[k + 1] == b[0];
      } else {
        assert r[k + 2] == b[0];
      }
    }
  }

  lemma TrimKeepsNoTriple(s: string)
    requires NoTripleNewline(s)
    ensures NoTripleNewline(Trim(s))
  {
    TrimIsSlice(s);
    var i: nat, j: nat :| i <= j <= |s| && Trim(s) == s[i..j];
    var t := s[i..j];
    forall k | 0 <= k < |t| - 2 ensures !(t[k] == '\n' && t[k + 1] == '\n' && t[k + 2] == '\n') {
      assert t[k] == s[i + k] && t[k + 1] == s[i + k + 1] && t[k + 2] == s[i + k + 2];
    }
  }

  // -------------------------------------------------------------- cleanHtml

  /** The three removals, in the order the script applies them. */
  function RemoveWidgets(h: string): string {
    RemoveAll(RemoveAll(RemoveAll(h, 0, ShareAt), 0, CopyAt), 0, FbAt)
  }

  /** `cleanHtml`: a falsy value gives `""`; a string has its widgets
      removed, is reduced to its details block, has its newline runs
      squeezed and is trimmed. Any other value makes `replace` throw, which
      is `None` here. */
  function CleanHtml(v: JsValue): Option<string> {
    if !Truthy(v) then Some("")
    else match v
      case Str(h) =>
        var d := KeepDetails(RemoveWidgets(h));
        Some(Trim(Squeeze(d, 0)))
      case _ => None
  }

  /** The cleaned HTML is empty for a falsy value, is there for every
      string, and is trimmed and free of runs of three newlines. */
  lemma CleanHtmlShape(v: JsValue)
    ensures !Truthy(v) ==> CleanHtml(v) == Some("")
    ensures v.Str? ==> CleanHtml(v).Some?
    ensures CleanHtml(v).Some? ==> IsTrimmed(CleanHtml(v).value) && NoTripleNewline(CleanHtml(v).value)
  {
    if Truthy(v) && v.Str? {
      var d := KeepDetails(RemoveWidgets(v.s));
      SqueezeNoTriple(d, 0);
      TrimKeepsNoTriple(Squeeze(d, 0));
    }
  }

  /** Text without `<` only has its newline runs squeezed and its ends
      trimmed. */
  lemma CleanHtmlPlain(h: string)
    requires '<' !in h
    ensures CleanHtml(Str(h)) == Some(Trim(Squeeze(h, 0)))
  {
    if h != [] {
      WidgetsPlain(h);
      NoDetailsWithoutTag(h);
      KeepDetailsAbsent(h);
    }
  }

  lemma NoDetailsWithoutTag(h: string)
    requires '<' !in h
    ensures !ContainsCI(h, DetailsOpen)
  {
    forall i: nat | i <= |h| ensures !OccursAtCI(h, DetailsOpen, i) {
      if i < |h| {
        assert LowerChar(h[i]) != '<';
        NotAtCI(h, DetailsOpen, i);
      }
    }
  }

  /** Text without `<` has no widget to remove. */
  lemma WidgetsPlain(h: string)
    requires '<' !in h
    ensures RemoveWidgets(h) == h
  {
    forall i | 0 <= i < |h| ensures ShareAt(h, i).None? && CopyAt(h, i).None? && FbAt(h, i).None? {
      NoMatchWithoutTag(h, i);
    }
    RemoveAllNone(h, ShareAt);
    RemoveAllNone(h, CopyAt);
    RemoveAllNone(h, FbAt);
  }

  // -------------------------------------------------------------- the items

  /** A news item: its fields by name. */
  type Item = map<string, JsValue>

  function Field(it: Item, k: string): JsValue {
    if k in it then it[k] else Undefined
  }

  /** The excerpt rule: an excerpt string longer than 20 characters is
      kept, otherwise a new one is cut from the stripped text. */
  function Excerpt(given: JsValue, text: string): string {
    if given.Str? && |given.s| > 20 then given.s else NewsExport.FirstN(text, 180)
  }

  /** One item of the `map` in `main`: the cleaned HTML, its text and the
      excerpt replace the old fields. */
  function CleanItem(it: Item): Option<Item> {
    match CleanHtml(Field(it, "content_html"))
    case None => None
    case Some(html) =>
      var text := NewsExport.StripTags(html);
      Some(it["content_html" := Str(html)]["content_text" := Str(text)]["excerpt" := Str(Excerpt(Field(it, "excerpt"), text))])
  }

  /** Every other field is copied unchanged and the three rewritten
      fields are strings. */
  lemma CleanItemFields(it: Item)
    requires CleanItem(it).Some?
    ensures forall k :: k != "content_html" && k != "content_text" && k != "excerpt" ==>
      (k in CleanItem(it).value <==> k in it) && (k in it ==> CleanItem(it).value[k] == it[k])
    ensures "content_html" in CleanItem(it).value && CleanItem(it).value["content_html"].Str?
    ensures "content_text" in CleanItem(it).value && CleanItem(it).value["content_text"].Str?
    ensures "excerpt" in CleanItem(it).value && CleanItem(it).value["excerpt"].Str?
  {
  }

  /** A given excerpt longer than 20 characters is kept; otherwise the new
      one is at most 180 characters long. */
  lemma ExcerptRule(given: JsValue, text: string)
    ensures given.Str? && |given.s| > 20 ==> Excerpt(given, text) == given.s
    ensures !(given.Str? && |given.s| > 20) ==> Excerpt(given, text) == NewsExport.FirstN(text, 180)
    ensures |Excerpt(given, text)| <= 180 || (given.Str? && |given.s| > 20)
  {
    NewsExport.FirstNFits(text, 180);
  }

  /** The excerpt of a cleaned item follows the rule, cut from the text of
      the cleaned HTML. */
  lemma CleanItemExcerpt(it: Item)
    requires CleanItem(it).Some?
    ensures var html := CleanHtml(Field(it, "content_html")).value;
      CleanItem(it).value["content_html"] == Str(html) &&
      CleanItem(it).value["content_text"] == Str(NewsExport.StripTags(html)) &&
      CleanItem(it).value["excerpt"] == Str(Excerpt(Field(it, "excerpt"), NewsExport.StripTags(html)))
  {
  }

  /** `items.map(...)`: `None` when some item makes the script throw. */
  function CleanAll(items: seq<Item>): (r: Option<seq<Item>>)
    ensures r.Some? ==> |r.value| == |items|
    ensures r.Some? ==> forall i :: 0 <= i < |items| ==> CleanItem(items[i]) == Some(r.value[i])
    ensures r.None? ==> exists i :: 0 <= i < |items| && CleanItem(items[i]).None?
    decreases |items|
  {
    if items == [] then Some([])
    else match CleanItem(items[0])
      case None => None
      case Some(c) =>
        match CleanAll(items[1..])
        case None => None
        case Some(rest) => Some([c] + rest)
  }
}
