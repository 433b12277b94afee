/** The now-playing route (src/pages/api/nowplaying.ts): it reads the Icecast
    status document, picks the "now playing" text, splits it into artist and
    title on the first " - ", and derives a normalised track key. The route's
    history is always empty. */
module NowPlaying {
  import opened Common
  import opened Text

  const Sep: string := " - "

  datatype Track = Track(artist: string, title: string)

  // ------------------------------------------------------------- splitTrack

  /** `splitTrack`: split on every " - ", keep the trimmed first part as the
      artist and the trimmed re-join of the other parts as the title. */
  function SplitTrack(entry: string): Track {
    var parts := Split(entry, Sep);
    Track(Trim(parts[0]), Trim(Join(parts[1..], Sep)))
  }

  /** Without a " - " the whole trimmed entry is the artist and the title is
      empty. */
  lemma SplitTrackWithoutSeparator(entry: string)
    requires IndexOf(entry, Sep).None?
    ensures SplitTrack(entry) == Track(Trim(entry), "")
  {
    assert Split(entry, Sep) == [entry];
    assert Trim([]) == [];
  }

  /** The split happens at the first " - " only: any later " - " stays in the
      title. */
  lemma SplitTrackAtFirstSeparator(entry: string, i: nat)
    requires IndexOf(entry, Sep) == Some(i)
    ensures SplitTrack(entry) == Track(Trim(entry[..i]), Trim(entry[i + |Sep|..]))
  {
    var rest := entry[i + |Sep|..];
    assert Split(entry, Sep) == [entry[..i]] + Split(rest, Sep);
    assert Split(entry, Sep)[1..] == Split(rest, Sep);
    JoinSplit(rest, Sep);
  }

  /** "A - B - C" splits into ("A", "B - C"). */
  lemma SplitTrackKeepsLaterSeparators(a: string, b: string, c: string)
    requires IsTrimmed(a) && IsTrimmed(b) && IsTrimmed(c) && b != [] && c != []
    requires !Contains(a, Sep) && !EndsWith(a, " -")
    ensures SplitTrack(a + Sep + b + Sep + c) == Track(a, b + Sep + c)
  {
    var t := b + Sep + c;
    assert a + Sep + b + Sep + c == a + Sep + t;
    assert IsTrimmed(t) by {
      assert t[0] == b[0] && t[|t| - 1] == c[|c| - 1];
    }
    SplitTrackRoundTrip(a, t);
  }

  /** When the artist holds no " - " and does not end in " -", the first
      separator of `artist + " - " + rest` is the one just after the artist. */
  lemma FirstSeparatorAfterArtist(artist: string, rest: string)
    requires IsTrimmed(artist)
    requires !Contains(artist, Sep) && !EndsWith(artist, " -")
    ensures IndexOf(artist + Sep + rest, Sep) == Some(|artist|)
  {
    var s := artist + Sep + rest;
    var n := |artist|;
    assert OccursAt(s, Sep, n) by {
      assert s[n..n + 3] == Sep;
    }
    forall j: nat | j < n ensures !OccursAt(s, Sep, j) {
      assert OccursAt(s, Sep, j) ==> s[j] == ' ' && s[j + 1] == '-' by {
        if OccursAt(s, Sep, j) {
          assert s[j..j + 3][0] == s[j] && s[j..j + 3][1] == s[j + 1];
        }
      }
      if j + 3 <= n {
        assert s[j..j + 3] == artist[j..j + 3];
        assert OccursAt(s, Sep, j) ==> OccursAt(artist, Sep, j);
      } else if j + 2 == n {
        assert artist[n - 2..] == [s[j], s[j + 1]];
      } else {
        assert s[j] == artist[n - 1];
      }
    }
    var k := IndexOf(s, Sep);
    assert k.Some?;
    assert k.value == n;
  }

  /** Round trip: joining a trimmed artist (holding no " - " and not ending in
      " -") and a trimmed title with " - " and splitting again gives them back. */
  lemma SplitTrackRoundTrip(artist: string, title: string)
    requires IsTrimmed(artist) && IsTrimmed(title)
    requires !Contains(artist, Sep) && !EndsWith(artist, " -")
    ensures SplitTrack(artist + Sep + title) == Track(artist, title)
  {
    var s := artist + Sep + title;
    assert s[..|artist|] == artist;
    assert s[|artist| + |Sep|..] == title;
    FirstSeparatorAfterArtist(artist, title);
    SplitTrackAtFirstSeparator(s, |artist|);
    TrimOfTrimmed(artist);
    TrimOfTrimmed(title);
  }

  // ---------------------------------------------------------------- normKey

  /** The characters `normKey` deletes: “ ” " and '. */
  predicate IsQuote(c: char) {
    c == '\U{201C}' || c == '\U{201D}' || c == '"' || c == '\''
  }

  function RemoveQuotes(s: string): (r: string)
    ensures forall i :: 0 <= i < |r| ==> !IsQuote(r[i])
  {
    if s == [] then []
    else if IsQuote(s[0]) then RemoveQuotes(s[1..])
    else [s[0]] + RemoveQuotes(s[1..])
  }

  /** The normalisation chain of `normKey`: lower-case, collapse whitespace runs,
      delete quotes, trim. */
  function NormText(s: string): string {
    Trim(RemoveQuotes(CollapseSpaces(Lower(s))))
  }

  /** `normKey(artist, title)`: the key holds no quote character and has no
      leading or trailing whitespace. */
  function NormKey(artist: string, title: string): (key: string)
    ensures forall i :: 0 <= i < |key| ==> !IsQuote(key[i])
    ensures IsTrimmed(key)
  {
    var q := RemoveQuotes(CollapseSpaces(Lower(artist + Sep + title)));
    TrimKeeps(q, c => !IsQuote(c));
    NormText(artist + Sep + title)
  }

  /** `x` and `y` differ at most in letter case and in the length of their
      whitespace runs. */
  predicate SameUpToCaseAndRuns(x: string, y: string)
    decreases |x| + |y|
  {
    if x == [] || y == [] then x == y
    else if IsSpace(x[0]) && IsSpace(y[0]) then
      SameUpToCaseAndRuns(TrimStart(x), TrimStart(y))
    else
      !IsSpace(x[0]) && !IsSpace(y[0]) && LowerChar(x[0]) == LowerChar(y[0]) &&
      SameUpToCaseAndRuns(x[1..], y[1..])
  }

  lemma {:induction false} LowerTrimStart(x: string)
    ensures Lower(TrimStart(x)) == TrimStart(Lower(x))
    decreases |x|
  {
    if x != [] {
      var lx := Lower(x);
      CaseKeepsSpace(x[0]);
      if IsSpace(x[0]) {
        assert lx[1..] == Lower(x[1..]);
        LowerTrimStart(x[1..]);
        assert TrimStart(x) == TrimStart(x[1..]);
        assert TrimStart(lx) == TrimStart(lx[1..]);
      } else {
        assert TrimStart(x) == x;
        assert !IsSpace(lx[0]);
        assert TrimStart(lx) == lx;
      }
    }
  }

  lemma {:induction false} CanonicalFormsAgree(x: string, y: string)
    requires SameUpToCaseAndRuns(x, y)
    ensures CollapseSpaces(Lower(x)) == CollapseSpaces(Lower(y))
    decreases |x| + |y|
  {
    if x != [] && y != [] {
      if IsSpace(x[0]) && IsSpace(y[0]) {
        CanonicalFormsAgree(TrimStart(x), TrimStart(y));
        LowerTrimStart(x);
        LowerTrimStart(y);
      } else {
        CanonicalFormsAgree(x[1..], y[1..]);
        assert Lower(x)[1..] == Lower(x[1..]);
        assert Lower(y)[1..] == Lower(y[1..]);
      }
    }
  }

  /** Track texts that differ only in letter case or in the length of
      whitespace runs get the same key. */
  lemma NormKeyIgnoresCaseAndRuns(a1: string, t1: string, a2: string, t2: string)
    requires SameUpToCaseAndRuns(a1 + Sep + t1, a2 + Sep + t2)
    ensures NormKey(a1, t1) == NormKey(a2, t2)
  {
    CanonicalFormsAgree(a1 + Sep + t1, a2 + Sep + t2);
  }

  lemma {:induction false} RemoveQuotesOfQuoteFree(s: string)
    requires forall i :: 0 <= i < |s| ==> !IsQuote(s[i])
    ensures RemoveQuotes(s) == s
  {
    if s != [] {
      RemoveQuotesOfQuoteFree(s[1..]);
    }
  }

  /** Normalising a quote-free text leaves no two adjacent whitespace
      characters. */
  lemma NormTextOfQuoteFree(s: string)
    requires forall i :: 0 <= i < |s| ==> !IsQuote(s[i])
    ensures NoDoubleSpace(NormText(s))
  {
    var c := CollapseSpaces(Lower(s));
    assert forall i :: 0 <= i < |Lower(s)| ==> !IsQuote(Lower(s)[i]);
    CollapseChars(Lower(s), c => !IsQuote(c));
    RemoveQuotesOfQuoteFree(c);
    CollapseNoDoubleSpace(Lower(s));
    TrimIsSlice(c);
    var i: nat, j: nat :| i <= j <= |c| && Trim(c) == c[i..j];
    SliceKeepsNoDoubleSpace(c, i, j);
  }

  /** A quote-free text with two adjacent whitespace characters is changed by
      normalisation. */
  lemma DoubleSpacedNotNormal(k: string, i: nat)
    requires forall i :: 0 <= i < |k| ==> !IsQuote(k[i])
    requires i + 1 < |k| && IsSpace(k[i]) && IsSpace(k[i + 1])
    ensures NormText(k) != k
  {
    NormTextOfQuoteFree(k);
  }

  lemma KeyExampleCanonical(a: char, q: char, b: char)
    requires 'a' <= a <= 'z' && 'a' <= b <= 'z' && IsQuote(q)
    ensures CollapseSpaces(Lower([a, ' ', q] + Sep + [b])) == [a, ' ', q, ' ', '-', ' ', b]
  {
    var x := [a, ' ', q] + Sep + [b];
    assert x == [a, ' ', q, ' ', '-', ' ', b];
    assert Lower(x) == x;
    assert NoDoubleSpace(x);
    CollapseOfSingleSpaced(x);
  }

  lemma KeyExampleUnquoted(a: char, q: char, b: char)
    requires 'a' <= a <= 'z' && 'a' <= b <= 'z' && IsQuote(q)
    ensures RemoveQuotes([a, ' ', q, ' ', '-', ' ', b]) == [a, ' ', ' ', '-', ' ', b]
  {
    var x := [a, ' ', q, ' ', '-', ' ', b];
    var t := [' ', '-', ' ', b];
    assert x[1..][1..][1..] == t;
    RemoveQuotesOfQuoteFree(t);
    assert RemoveQuotes(x[1..][1..]) == t;
    assert RemoveQuotes(x[1..]) == [' '] + t;
  }

  /** Deleting a quote can leave two spaces side by side in a key: the artist
      "a '" with title "b" gets the key "a  - b". */
  lemma NormKeyKeepsDoubleSpace(a: char, q: char, b: char)
    requires 'a' <= a <= 'z' && 'a' <= b <= 'z' && IsQuote(q)
    ensures NormKey([a, ' ', q], [b]) == [a, ' ', ' ', '-', ' ', b]
  {
    var x := [a, ' ', q] + Sep + [b];
    var y := [a, ' ', ' ', '-', ' ', b];
    KeyExampleCanonical(a, q, b);
    KeyExampleUnquoted(a, q, b);
    assert RemoveQuotes(CollapseSpaces(Lower(x))) == y;
    assert IsTrimmed(y);
    TrimOfTrimmed(y);
  }

  /** `normKey` is not idempotent, although a key is meant to be its own
      normal form: normalising the key above again collapses its two spaces. */
  lemma NormKeyNotIdempotent(a: char, q: char, b: char)
    requires 'a' <= a <= 'z' && 'a' <= b <= 'z' && IsQuote(q)
    ensures NormText(NormKey([a, ' ', q], [b])) != NormKey([a, ' ', q], [b])
  {
    var k := NormKey([a, ' ', q], [b]);
    NormKeyKeepsDoubleSpace(a, q, b);
    assert IsSpace(k[1]) && IsSpace(k[2]);
    DoubleSpacedNotNormal(k, 1);
  }

  // ----------------------------------------------------- extractNowPlaying

  /** One entry of `icestats.source`, with the three fields the route reads. */
  datatype Source = Source(title: JsValue, ypCurrentlyPlaying: JsValue, artist: JsValue)

  /** `json?.icestats?.source`: missing, one object, or an array of them. */
  datatype SourceField = NoSource | Single(src: Source) | Several(srcs: seq<Source>)

  /** `Array.isArray(src) ? src[0] : src`. */
  function Selected(f: SourceField): Option<Source> {
    match f
    case NoSource => None
    case Single(s) => Some(s)
    case Several(ss) => if ss == [] then None else Some(ss[0])
  }

  /** The condition of the conditional expression: `?:` binds looser than `||`,
      so the three tests are one disjunction. */
  predicate AnyNowField(s: Source) {
    Truthy(s.title) || Truthy(s.ypCurrentlyPlaying) || (Truthy(s.artist) && Truthy(s.title))
  }

  /** `extractNowPlaying` as written: whenever a field is set the result is the
      trimmed template `${artist} - ${title}`, with a missing field printed as
      "undefined". */
  function ExtractNowPlaying(f: SourceField): string {
    match Selected(f)
    case None => ""
    case Some(s) =>
      Trim(if AnyNowField(s) then ToStr(s.artist) + Sep + ToStr(s.title) else "")
  }

  /** No field set (or no source at all): the text is empty. */
  lemma ExtractNowPlayingEmpty(f: SourceField)
    requires Selected(f).None? || !AnyNowField(Selected(f).value)
    ensures ExtractNowPlaying(f) == ""
  {
    TrimAllSpace("");
  }

  /** Any set field yields the template, built from the first array entry. */
  lemma ExtractNowPlayingTemplate(srcs: seq<Source>)
    requires srcs != [] && AnyNowField(srcs[0])
    ensures ExtractNowPlaying(Several(srcs)) == Trim(ToStr(srcs[0].artist) + Sep + ToStr(srcs[0].title))
  {
  }

  /** A source with only a title yields "undefined - <title>". */
  lemma ExtractNowPlayingTitleOnly(title: string)
    requires title != [] && IsTrimmed(title)
    ensures ExtractNowPlaying(Single(Source(Str(title), Undefined, Undefined))) == "undefined - " + title
  {
    var src := Source(Str(title), Undefined, Undefined);
    var t := ToStr(src.artist) + Sep + ToStr(src.title);
    assert AnyNowField(src);
    assert ExtractNowPlaying(Single(src)) == Trim(t);
    assert t == "undefined - " + title;
    assert IsTrimmed(t);
    TrimOfTrimmed(t);
  }

  /** A source with only `yp_currently_playing` yields "undefined - undefined":
      the field's own text is never used. */
  lemma ExtractNowPlayingIgnoresYp(yp: string)
    requires yp != []
    ensures ExtractNowPlaying(Single(Source(Undefined, Str(yp), Undefined))) == "undefined - undefined"
  {
    var src := Source(Undefined, Str(yp), Undefined);
    var t := ToStr(src.artist) + Sep + ToStr(src.title);
    assert AnyNowField(src);
    assert ExtractNowPlaying(Single(src)) == Trim(t);
    assert t == "undefined - undefined";
    assert IsTrimmed(t);
    TrimOfTrimmed(t);
  }

  // --------------------------------------------------------------------- GET

  /** The `limit` query parameter: absent, present but empty, or a number. */
  datatype LimitParam = LimitAbsent | LimitEmpty | LimitNumber(n: int)

  /** `Math.max(1, Math.min(30, Number(param || "12")))`. */
  function Limit(p: LimitParam): (l: int)
    ensures 1 <= l <= 30
    ensures p.LimitNumber? && 1 <= p.n <= 30 ==> l == p.n
    ensures p.LimitNumber? && p.n > 30 ==> l == 30
    ensures p.LimitNumber? && p.n < 1 ==> l == 1
    ensures !p.LimitNumber? ==> l == 12
  {
    var n := if p.LimitNumber? then p.n else 12;
    if n > 30 then 30 else if n < 1 then 1 else n
  }

  /** The `now` object of the response; `ts` is the request's clock reading. */
  datatype NowTrack = NowTrack(text: string, ts: int, artist: string, title: string, key: string)

  /** `now`: null for an empty text, otherwise the split track with its key
      computed from the split artist and title, in that order. */
  function Now(text: string, ts: int): (n: Option<NowTrack>)
    ensures n.None? <==> text == []
    ensures n.Some? ==> n.value.text == text && n.value.ts == ts
    ensures n.Some? ==> Track(n.value.artist, n.value.title) == SplitTrack(text)
    ensures n.Some? ==> n.value.key == NormKey(SplitTrack(text).artist, SplitTrack(text).title)
  {
    if text == [] then None
    else
      var t := SplitTrack(text);
      Some(NowTrack(text, ts, t.artist, t.title, NormKey(t.artist, t.title)))
  }

  /** What the upstream fetch produced: it threw (network error or a body that
      is not JSON), or it answered with a status and a parsed source field. */
  datatype Upstream = Threw(message: string) | Answered(status: int, source: SourceField)

  datatype Response = Response(status: int, ok: bool, error: string, now: Option<NowTrack>, historyLength: nat)

  /** The route `GET`: configuration first, then the upstream status, then the
      body. History is always empty. */
  function Get(configured: bool, limit: LimitParam, upstream: Upstream, clock: int): (r: Response)
    ensures !configured ==> r.status == 500 && !r.ok && r.error == "ICECAST_STATUS_URL missing"
    ensures configured && upstream.Threw? ==>
      r.status == 500 && !r.ok && r.error == (if upstream.message != [] then upstream.message else "fetch failed")
    ensures configured && upstream.Answered? && !(200 <= upstream.status < 300) ==>
      r.status == 502 && !r.ok && r.error == "Upstream HTTP " + IntToString(upstream.status)
    ensures r.ok <==> r.status == 200
    ensures r.ok ==> upstream.Answered? && r.now == Now(ExtractNowPlaying(upstream.source), clock)
    ensures configured && upstream.Answered? && 200 <= upstream.status < 300 ==>
      r.ok && r.status == 200 && r.now == Now(ExtractNowPlaying(upstream.source), clock)
    ensures r.historyLength == 0
  {
    if !configured then Response(500, false, "ICECAST_STATUS_URL missing", None, 0)
    else
      var _ := Limit(limit);
      match upstream
      case Threw(m) => Response(500, false, if m != [] then m else "fetch failed", None, 0)
      case Answered(status, src) =>
        if !(200 <= status < 300) then
          Response(502, false, "Upstream HTTP " + IntToString(status), None, 0)
        else
          Response(200, true, "", Now(ExtractNowPlaying(src), clock), 0)
  }
}
