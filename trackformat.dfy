/** Display formatting of track titles (src/lib/trackFormat.ts): stripping
    bracketed mix/edit suffixes, English title case, and their composition
    `prettyTitle`. The suffix regex is rewritten as a character-level matcher;
    case-insensitive matching and case mapping cover ASCII letters. */
module TrackFormat {
  import opened Common
  import opened Text

  // ------------------------------------------------ the suffix regular expression

  /** The optional qualifier words in front of a keyword. */
  const Qualifiers: seq<string> :=
    ["extended", "original", "radio", "club", "album", "single", "clean", "explicit", "short", "long"]

  /** The keywords. `remaster(?:ed)?` contributes two entries; in
      "a cappella" the space stands for `\s*`. */
  const Keywords: seq<string> :=
    ["mix", "edit", "version", "remix", "re-mix", "rework", "bootleg", "instrumental",
     "acapella", "a cappella", "dub", "vip", "remaster", "remastered", "mono", "stereo"]

  predicate IsOpen(c: char) {
    c == '(' || c == '['
  }

  predicate IsClose(c: char) {
    c == ')' || c == ']'
  }

  /** `\b` just after a keyword, whose last character is a letter. */
  predicate BoundaryAt(s: string, e: nat) {
    e >= |s| || !IsWordChar(s[e])
  }

  /** `\s*` from index `i`: greedy, and never worth backtracking here, since
      what follows it never starts with whitespace. */
  function SkipSpaces(s: string, i: nat): (j: nat)
    requires i <= |s|
    ensures i <= j <= |s|
    ensures forall k :: i <= k < j ==> IsSpace(s[k])
    ensures j == |s| || !IsSpace(s[j])
    decreases |s| - i
  {
    if i < |s| && IsSpace(s[i]) then SkipSpaces(s, i + 1) else i
  }

  /** Where the lower-case word `w` ends when matched from index `i`,
      ignoring case; a space in `w` matches any run of whitespace. */
  function WordEnd(s: string, i: nat, w: string): (e: Option<nat>)
    requires i <= |s|
    ensures e.Some? ==> i <= e.value <= |s|
    decreases |w|
  {
    if w == [] then Some(i)
    else if w[0] == ' ' then WordEnd(s, SkipSpaces(s, i), w[1..])
    else if i < |s| && LowerChar(s[i]) == w[0] then WordEnd(s, i + 1, w[1..])
    else None
  }

  /** One of the words `ws`, followed by `\b`, starts at index `i`. */
  predicate AnyWordAt(s: string, i: nat, ws: seq<string>)
    requires i <= |s|
    decreases |ws|
  {
    ws != [] &&
    ((WordEnd(s, i, ws[0]).Some? && BoundaryAt(s, WordEnd(s, i, ws[0]).value)) || AnyWordAt(s, i, ws[1..]))
  }

  /** One of the qualifiers `qs`, then spaces, then a keyword and `\b`, starts
      at `k`. */
  predicate QualifiedAt(s: string, k: nat, qs: seq<string>)
    requires k <= |s|
    decreases |qs|
  {
    qs != [] &&
    ((WordEnd(s, k, qs[0]).Some? && AnyWordAt(s, SkipSpaces(s, WordEnd(s, k, qs[0]).value), Keywords)) ||
     QualifiedAt(s, k, qs[1..]))
  }

  /** What may follow the opening bracket and its spaces: the optional
      qualifier group is the choice between the empty word and a qualifier,
      and `k` already stands after the spaces. */
  predicate GroupHead(s: string, k: nat)
    requires k <= |s|
  {
    QualifiedAt(s, k, [""] + Qualifiers)
  }

  /** The first closing bracket at or after `k`. */
  function FindClose(s: string, k: nat): (c: Option<nat>)
    requires k <= |s|
    ensures c.Some? ==> k <= c.value < |s| && IsClose(s[c.value])
    ensures c.Some? ==> forall m :: k <= m < c.value ==> !IsClose(s[m])
    ensures c.None? ==> forall m :: k <= m < |s| ==> !IsClose(s[m])
    decreases |s| - k
  {
    if k == |s| then None
    else if IsClose(s[k]) then Some(k)
    else FindClose(s, k + 1)
  }

  /** Where a match of the suffix regex starting at `p` ends, if there is one.
      Leading spaces, the opening bracket and the spaces after it are matched
      greedily; then the group head must match, and `[^)\]]*[)\]]` runs to the
      first closing bracket. The keyword and qualifier contain no closing
      bracket, so that bracket is the first one after the opening bracket,
      whichever alternative matched. Trailing spaces are taken greedily. */
  function SuffixMatchAt(s: string, p: nat): (e: Option<nat>)
    requires p <= |s|
    ensures e.Some? ==> p < e.value <= |s|
  {
    GroupMatchAt(s, p, HeadTest(s))
  }

  /** The group-head test on `s`, as a function of the index. */
  function HeadTest(s: string): nat -> bool {
    (k: nat) => k <= |s| && GroupHead(s, k)
  }

  /** The suffix regex at `p`, with the test for what follows the opening
      bracket and its spaces given as `head`. */
  function GroupMatchAt(s: string, p: nat, head: nat -> bool): (e: Option<nat>)
    requires p <= |s|
    ensures e.Some? ==> p < e.value <= |s|
  {
    var j := SkipSpaces(s, p);
    if j < |s| && IsOpen(s[j]) then
      var k := SkipSpaces(s, j + 1);
      if head(k) then
        match FindClose(s, k)
        case None => None
        case Some(c) => Some(SkipSpaces(s, c + 1))
      else None
    else None
  }

  /** `s.replace(rx, " ")` for the global regex, scanning from index `p`: each
      leftmost match becomes one space and the scan resumes after it. */
  function ReplaceSuffixes(s: string, p: nat): string
    requires p <= |s|
    decreases |s| - p
  {
    if p == |s| then []
    else match SuffixMatchAt(s, p)
      case Some(e) => " " + ReplaceSuffixes(s, e)
      case None => [s[p]] + ReplaceSuffixes(s, p + 1)
  }

  /** `s.replace(/\s{2,}/g, " ")`: runs of two or more whitespace characters
      become one space; a single whitespace character is kept as it is. */
  function CollapseLongRuns(s: string): (r: string)
    ensures r == [] <==> s == []
    ensures s != [] ==> (IsSpace(r[0]) <==> IsSpace(s[0]))
    decreases |s|
  {
    if s == [] then []
    else if |s| >= 2 && IsSpace(s[0]) && IsSpace(s[1]) then [' '] + CollapseLongRuns(TrimStart(s))
    else [s[0]] + CollapseLongRuns(s[1..])
  }

  lemma {:induction false} CollapseLongRunsNoDoubleSpace(s: string)
    ensures NoDoubleSpace(CollapseLongRuns(s))
    decreases |s|
  {
    if s != [] {
      var double := |s| >= 2 && IsSpace(s[0]) && IsSpace(s[1]);
      var t := if double then TrimStart(s) else s[1..];
      CollapseLongRunsNoDoubleSpace(t);
      var r := CollapseLongRuns(s);
      assert r == [if double then ' ' else s[0]] + CollapseLongRuns(t);
    }
  }

  /** Text without two adjacent whitespace characters is left alone. */
  lemma {:induction false} CollapseLongRunsFixed(s: string)
    requires NoDoubleSpace(s)
    ensures CollapseLongRuns(s) == s
    decreases |s|
  {
    if s != [] {
      CollapseLongRunsFixed(s[1..]);
    }
  }

  /** `stripTitleSuffixes`: empty for blank input; otherwise the suffix groups
      are replaced by a space, long whitespace runs collapsed and the ends
      trimmed, so the result is trimmed and has no two adjacent whitespace
      characters. */
  function StripTitleSuffixes(input: string): (r: string)
    ensures Trim(input) == [] ==> r == []
    ensures IsTrimmed(r) && NoDoubleSpace(r)
  {
    var s := Trim(input);
    if s == [] then []
    else
      var c := CollapseLongRuns(ReplaceSuffixes(s, 0));
      CollapseLongRunsNoDoubleSpace(ReplaceSuffixes(s, 0));
      TrimKeepsNoDoubleSpace(c);
      Trim(c)
  }

  /** Blank input gives the empty string. */
  lemma StripTitleSuffixesBlank(input: string)
    requires AllSpace(input)
    ensures StripTitleSuffixes(input) == []
  {
    TrimAllSpace(input);
  }

  /** A position without a match is copied. */
  lemma ReplaceSuffixesStep(s: string, p: nat)
    requires p < |s|
    requires SuffixMatchAt(s, p).None?
    ensures ReplaceSuffixes(s, p) == [s[p]] + ReplaceSuffixes(s, p + 1)
  {
  }

  /** No match of the suffix regex starts at any index in `[p, n)`. */
  predicate NoMatchBetween(s: string, p: nat, n: nat)
    requires p <= n <= |s|
    decreases n - p
  {
    p == n || (SuffixMatchAt(s, p).None? && NoMatchBetween(s, p + 1, n))
  }

  /** Positions without a match are copied one by one. */
  lemma {:induction false} ReplaceSuffixesCopies(s: string, p: nat, n: nat)
    requires p <= n <= |s|
    requires NoMatchBetween(s, p, n)
    ensures ReplaceSuffixes(s, p) == s[p..n] + ReplaceSuffixes(s, n)
    decreases n - p
  {
    if p < n {
      NoMatchBetweenHead(s, p, n);
      ReplaceSuffixesStep(s, p);
      ReplaceSuffixesCopies(s, p + 1, n);
      CopyStep(s, p, n, ReplaceSuffixes(s, p), ReplaceSuffixes(s, p + 1), ReplaceSuffixes(s, n));
    }
  }

  lemma NoMatchBetweenHead(s: string, p: nat, n: nat)
    requires p < n <= |s| && NoMatchBetween(s, p, n)
    ensures SuffixMatchAt(s, p).None? && NoMatchBetween(s, p + 1, n)
  {
  }

  lemma CopyStep(s: string, p: nat, n: nat, a: string, b: string, rest: string)
    requires p < n <= |s|
    requires a == [s[p]] + b && b == s[p + 1..n] + rest
    ensures a == s[p..n] + rest
  {
    assert s[p..n] == [s[p]] + s[p + 1..n];
  }

  lemma {:induction false} NoMatchBetweenFromAll(s: string, p: nat, n: nat)
    requires p <= n <= |s|
    requires forall i :: p <= i < n ==> SuffixMatchAt(s, i).None?
    ensures NoMatchBetween(s, p, n)
    decreases n - p
  {
    if p < n {
      NoMatchBetweenFromAll(s, p + 1, n);
    }
  }

  /** No match can start inside a trimmed prefix free of opening brackets: its
      spaces end on a character of the prefix, which is not a bracket. */
  lemma NoMatchInPrefix(t: string, g: string, p: nat)
    requires t != [] && IsTrimmed(t) && p < |t|
    requires forall i :: 0 <= i < |t| ==> !IsOpen(t[i])
    ensures SuffixMatchAt(t + g, p).None?
  {
    var s := t + g;
    var j := SkipSpaces(s, p);
    assert s[|t| - 1] == t[|t| - 1];
    assert j < |t|;
    assert s[j] == t[j];
  }

  /** A trailing group the regex matches in full is removed from a title that
      has no opening bracket and no two adjacent whitespace characters. */
  lemma {:induction false} StripTrailingGroup(t: string, g: string)
    requires t != [] && IsTrimmed(t) && NoDoubleSpace(t)
    requires forall i :: 0 <= i < |t| ==> !IsOpen(t[i])
    requires g != [] && !IsSpace(g[|g| - 1])
    requires SuffixMatchAt(t + g, |t|) == Some(|t| + |g|)
    ensures StripTitleSuffixes(t + g) == t
  {
    var s := t + g;
    assert IsTrimmed(s) by {
      assert s[0] == t[0] && s[|s| - 1] == g[|g| - 1];
    }
    TrimOfTrimmed(s);
    ReplaceTrailingGroup(t, g);
    var r := t + " ";
    TrailingSpaceKept(t);
    CollapseLongRunsFixed(r);
    TrimTrailingSpace(t);
  }

  lemma TrimTrailingSpace(t: string)
    requires t != [] && IsTrimmed(t)
    ensures Trim(t + " ") == t
  {
    var r := t + " ";
    assert r[0] == t[0] && r[|r| - 1] == ' ';
    assert r[..|r| - 1] == t;
  }

  lemma TrailingSpaceKept(t: string)
    requires t != [] && IsTrimmed(t) && NoDoubleSpace(t)
    ensures NoDoubleSpace(t + " ")
  {
    var r := t + " ";
    forall i | 0 <= i < |r| - 1 ensures !(IsSpace(r[i]) && IsSpace(r[i + 1])) {
      if i + 1 < |t| {
        assert r[i] == t[i] && r[i + 1] == t[i + 1];
      } else {
        assert r[i] == t[|t| - 1];
      }
    }
  }

  /** The replacement leaves the title and one space for the group. */
  lemma ReplaceTrailingGroup(t: string, g: string)
    requires t != [] && IsTrimmed(t)
    requires forall i :: 0 <= i < |t| ==> !IsOpen(t[i])
    requires SuffixMatchAt(t + g, |t|) == Some(|t| + |g|)
    ensures ReplaceSuffixes(t + g, 0) == t + " "
  {
    var s := t + g;
    forall i | 0 <= i < |t| ensures SuffixMatchAt(s, i).None? {
      NoMatchInPrefix(t, g, i);
    }
    NoMatchBetweenFromAll(s, 0, |t|);
    ReplaceSuffixesCopies(s, 0, |t|);
    assert s[0..|t|] == t;
  }

  /** A word without spaces matches exactly where the text spells it, up to
      case. */
  lemma {:induction false} WordEndPlain(s: string, i: nat, w: string)
    requires i + |w| <= |s|
    requires forall m :: 0 <= m < |w| ==> w[m] != ' ' && LowerChar(s[i + m]) == w[m]
    ensures WordEnd(s, i, w) == Some(i + |w|)
    decreases |w|
  {
    if w != [] {
      WordEndPlain(s, i + 1, w[1..]);
    }
  }

  /** A qualifier group is a group head. */
  lemma QualifiedIsGroupHead(s: string, k: nat)
    requires k <= |s| && QualifiedAt(s, k, Qualifiers)
    ensures GroupHead(s, k)
  {
    assert ([""] + Qualifiers)[1..] == Qualifiers;
  }

  /** "Extended", spaces, "Mix" and a non-word character form a group head. */
  lemma ExtendedMixHead(s: string, k: nat)
    requires k + 13 <= |s|
    requires s[k..k + 13] == "Extended Mix)"
    ensures HeadTest(s)(k)
  {
    ExtendedWord(s, k);
    MixWord(s, k);
    assert Keywords[0] == "mix";
    assert AnyWordAt(s, k + 9, Keywords);
    assert Qualifiers[0] == "extended";
    assert QualifiedAt(s, k, Qualifiers);
    QualifiedIsGroupHead(s, k);
    HeadTestOf(s, k);
  }

  lemma ExtendedWord(s: string, k: nat)
    requires k + 13 <= |s|
    requires s[k..k + 13] == "Extended Mix)"
    ensures WordEnd(s, k, "extended") == Some(k + 8)
    ensures SkipSpaces(s, k + 8) == k + 9
  {
    var u := s[k..k + 13];
    forall m | 0 <= m < 8 ensures LowerChar(s[k + m]) == "extended"[m] {
      assert s[k + m] == u[m];
    }
    WordEndPlain(s, k, "extended");
    assert s[k + 8] == u[8] && s[k + 9] == u[9];
    assert SkipSpaces(s, k + 9) == k + 9;
  }

  lemma MixWord(s: string, k: nat)
    requires k + 13 <= |s|
    requires s[k..k + 13] == "Extended Mix)"
    ensures WordEnd(s, k + 9, "mix") == Some(k + 12)
    ensures BoundaryAt(s, k + 12)
  {
    var u := s[k..k + 13];
    forall m | 0 <= m < 3 ensures LowerChar(s[k + 9 + m]) == "mix"[m] {
      assert s[k + 9 + m] == u[9 + m];
    }
    WordEndPlain(s, k + 9, "mix");
    assert s[k + 12] == u[12];
  }

  /** The group " (Extended Mix)" is one match of the suffix regex. */
  lemma ExtendedMixMatches(t: string)
    ensures SuffixMatchAt(t + " (Extended Mix)", |t|) == Some(|t| + 15)
  {
    var s := t + " (Extended Mix)";
    assert s[|t|..] == " (Extended Mix)";
    ExtendedMixTail(s, |t|);
  }

  lemma ExtendedMixTail(s: string, n: nat)
    requires n + 15 == |s| && s[n..] == " (Extended Mix)"
    ensures SuffixMatchAt(s, n) == Some(n + 15)
  {
    var k := n + 2;
    var g := s[n..];
    assert s[n] == g[0] && s[n + 1] == g[1] && s[k] == g[2];
    assert s[k..k + 13] == g[2..];
    ExtendedMixHead(s, k);
    ExtendedMixClose(s, k);
    GroupMatchOfGroup(s, n, k + 12, HeadTest(s));
  }

  /** The closing bracket of "Extended Mix)" is its last character. */
  lemma ExtendedMixClose(s: string, k: nat)
    requires k + 13 <= |s|
    requires s[k..k + 13] == "Extended Mix)"
    ensures FindClose(s, k) == Some(k + 12)
  {
    var u := s[k..k + 13];
    forall m | k <= m < k + 12 ensures !IsClose(s[m]) {
      assert s[m] == u[m - k];
    }
    assert s[k + 12] == u[12];
  }

  lemma HeadTestOf(s: string, k: nat)
    requires k <= |s| && GroupHead(s, k)
    ensures HeadTest(s)(k)
  {
  }

  /** A space, an opening bracket, a group head and a closing bracket at the
      end of the text form one match. */
  lemma GroupMatchOfGroup(s: string, n: nat, c: nat, head: nat -> bool)
    requires n + 2 <= c && c + 1 == |s|
    requires s[n] == ' ' && IsOpen(s[n + 1]) && !IsSpace(s[n + 2])
    requires head(n + 2) && FindClose(s, n + 2) == Some(c)
    ensures GroupMatchAt(s, n, head) == Some(|s|)
  {
    assert !IsSpace(s[n + 1]);
    assert SkipSpaces(s, n + 1) == n + 1;
    assert SkipSpaces(s, n) == n + 1;
    assert SkipSpaces(s, n + 2) == n + 2;
    assert SkipSpaces(s, c + 1) == |s|;
  }

  /** `stripTitleSuffixes("<title> (Extended Mix)")` is the title. */
  lemma StripExtendedMix(t: string)
    requires t != [] && IsTrimmed(t) && NoDoubleSpace(t)
    requires forall i :: 0 <= i < |t| ==> !IsOpen(t[i])
    ensures StripTitleSuffixes(t + " (Extended Mix)") == t
  {
    ExtendedMixMatches(t);
    StripTrailingGroup(t, " (Extended Mix)");
  }

  /** Without an opening bracket nothing matches and the rest is copied. */
  lemma {:induction false} ReplaceSuffixesNoOpen(s: string, p: nat)
    requires p <= |s|
    requires forall i :: p <= i < |s| ==> !IsOpen(s[i])
    ensures ReplaceSuffixes(s, p) == s[p..]
    decreases |s| - p
  {
    if p < |s| {
      ReplaceSuffixesNoOpen(s, p + 1);
    }
  }

  /** None of the words `ws` starts with the letter found at `k`. */
  lemma {:induction false} NoWordAt(s: string, k: nat, ws: seq<string>, c: char)
    requires k < |s| && LowerChar(s[k]) == c
    requires forall m :: 0 <= m < |ws| ==> ws[m] != [] && ws[m][0] != ' ' && ws[m][0] != c
    ensures !AnyWordAt(s, k, ws)
    decreases |ws|
  {
    if ws != [] {
      assert WordEnd(s, k, ws[0]).None?;
      NoWordAt(s, k, ws[1..], c);
    }
  }

  lemma {:induction false} NoQualifiedAt(s: string, k: nat, qs: seq<string>, c: char)
    requires k < |s| && LowerChar(s[k]) == c
    requires forall m :: 0 <= m < |qs| ==> qs[m] != [] && qs[m][0] != ' ' && qs[m][0] != c
    ensures !QualifiedAt(s, k, qs)
    decreases |qs|
  {
    if qs != [] {
      assert WordEnd(s, k, qs[0]).None?;
      NoQualifiedAt(s, k, qs[1..], c);
    }
  }

  /** No keyword and no qualifier starts with 'f' or with a space. */
  lemma InitialsAreNotF()
    ensures forall m :: 0 <= m < |Keywords| ==> Keywords[m] != [] && Keywords[m][0] != ' ' && Keywords[m][0] != 'f'
    ensures forall m :: 0 <= m < |Qualifiers| ==> Qualifiers[m] != [] && Qualifiers[m][0] != ' ' && Qualifiers[m][0] != 'f'
  {
  }

  /** A group opening with a word that starts with 'f' is not a suffix group. */
  lemma NoGroupHeadAtF(s: string, k: nat)
    requires k < |s| && s[k] == 'f'
    ensures !GroupHead(s, k)
  {
    assert SkipSpaces(s, k) == k;
    InitialsAreNotF();
    NoWordAt(s, k, Keywords, 'f');
    NoQualifiedAt(s, k, Qualifiers, 'f');
    var qs := [""] + Qualifiers;
    assert qs[0] == "" && qs[1..] == Qualifiers;
    assert WordEnd(s, k, "") == Some(k);
  }

  /** The shape of " (feat. X)": no opening bracket after its own, no two
      adjacent whitespace characters, and it ends in ')'. */
  lemma FeatGroupShape(x: string)
    requires x != [] && forall i :: 0 <= i < |x| ==> !IsOpen(x[i]) && !IsSpace(x[i])
    ensures var g := " (feat. " + x + ")";
      g[0] == ' ' && g[1] == '(' && g[2] == 'f' && g[|g| - 1] == ')' &&
      NoDoubleSpace(g) && forall i :: 2 <= i < |g| ==> !IsOpen(g[i])
  {
    var g := " (feat. " + x + ")";
    assert g[..8] == " (feat. ";
    forall i | 8 <= i < |g| - 1 ensures g[i] == x[i - 8] {
    }
  }

  /** Joining two texts without adjacent whitespace, the first not ending in
      whitespace, leaves no adjacent whitespace. */
  lemma NoDoubleSpaceAppend(t: string, g: string)
    requires NoDoubleSpace(t) && NoDoubleSpace(g)
    requires t != [] && !IsSpace(t[|t| - 1])
    ensures NoDoubleSpace(t + g)
  {
    var s := t + g;
    var n := |t|;
    forall i | 0 <= i < |s| - 1 ensures !(IsSpace(s[i]) && IsSpace(s[i + 1])) {
      if i < n - 1 {
        assert s[i] == t[i] && s[i + 1] == t[i + 1];
      } else if i == n - 1 {
        assert s[i] == t[n - 1];
      } else {
        assert s[i] == g[i - n] && s[i + 1] == g[i + 1 - n];
      }
    }
  }

  /** " (f" starts no match, at its space or at its bracket. */
  lemma NoMatchBeforeF(s: string, n: nat)
    requires n + 2 < |s| && s[n] == ' ' && s[n + 1] == '(' && s[n + 2] == 'f'
    ensures SuffixMatchAt(s, n).None? && SuffixMatchAt(s, n + 1).None?
  {
    NoGroupHeadAtF(s, n + 2);
    assert !HeadTest(s)(n + 2);
    assert SkipSpaces(s, n + 2) == n + 2;
    assert SkipSpaces(s, n + 1) == n + 1;
    assert SkipSpaces(s, n) == n + 1;
  }

  /** Nothing in `t + g` matches when `t` is a bracket-free trimmed title and
      `g` opens a bracket whose first word starts with 'f'. */
  lemma ReplaceSuffixesKeepsF(t: string, g: string)
    requires t != [] && IsTrimmed(t)
    requires forall i :: 0 <= i < |t| ==> !IsOpen(t[i])
    requires |g| >= 3 && g[0] == ' ' && g[1] == '(' && g[2] == 'f'
    requires forall i :: 2 <= i < |g| ==> !IsOpen(g[i])
    ensures ReplaceSuffixes(t + g, 0) == t + g
  {
    var s := t + g;
    var n := |t|;
    forall i | 0 <= i < n ensures SuffixMatchAt(s, i).None? {
      NoMatchInPrefix(t, g, i);
    }
    assert s[n] == g[0] && s[n + 1] == g[1] && s[n + 2] == g[2];
    TailNoOpen(t, g);
    NoMatchBetweenFromAll(s, 0, n);
    ReplaceSuffixesCopies(s, 0, n);
    TailCopied(s, n);
    assert s[0..n] + s[n..] == s;
  }

  lemma TailNoOpen(t: string, g: string)
    requires |g| >= 2 && forall i :: 2 <= i < |g| ==> !IsOpen(g[i])
    ensures forall i :: |t| + 2 <= i < |t + g| ==> !IsOpen((t + g)[i])
  {
    forall i | |t| + 2 <= i < |t + g| ensures !IsOpen((t + g)[i]) {
      assert (t + g)[i] == g[i - |t|];
    }
  }

  /** From " (f" on, with no opening bracket after its own, the text is
      copied. */
  lemma TailCopied(s: string, n: nat)
    requires n + 2 < |s| && s[n] == ' ' && s[n + 1] == '(' && s[n + 2] == 'f'
    requires forall i :: n + 2 <= i < |s| ==> !IsOpen(s[i])
    ensures ReplaceSuffixes(s, n) == s[n..]
  {
    NoMatchBeforeF(s, n);
    ReplaceSuffixesStep(s, n);
    ReplaceSuffixesStep(s, n + 1);
    ReplaceSuffixesNoOpen(s, n + 2);
    JoinTwo(s, n, ReplaceSuffixes(s, n), ReplaceSuffixes(s, n + 1), ReplaceSuffixes(s, n + 2));
  }

  lemma JoinTwo(s: string, n: nat, a: string, b: string, c: string)
    requires n + 2 <= |s|
    requires a == [s[n]] + b && b == [s[n + 1]] + c && c == s[n + 2..]
    ensures a == s[n..]
  {
    assert b == s[n + 1..];
  }

  /** A "(feat. X)" group is left in place. */
  lemma StripKeepsFeat(t: string, x: string)
    requires t != [] && IsTrimmed(t) && NoDoubleSpace(t)
    requires forall i :: 0 <= i < |t| ==> !IsOpen(t[i])
    requires x != [] && forall i :: 0 <= i < |x| ==> !IsOpen(x[i]) && !IsSpace(x[i])
    ensures StripTitleSuffixes(t + " (feat. " + x + ")") == t + " (feat. " + x + ")"
  {
    var g := " (feat. " + x + ")";
    FeatGroupShape(x);
    var s := t + g;
    assert t + " (feat. " + x + ")" == s;
    assert IsTrimmed(s) by {
      assert s[0] == t[0] && s[|s| - 1] == g[|g| - 1];
    }
    TrimOfTrimmed(s);
    ReplaceSuffixesKeepsF(t, g);
    NoDoubleSpaceAppend(t, g);
    CollapseLongRunsFixed(s);
  }

  // ---------------------------------------------------------------- title case

  /** The words kept in lower case inside a title. */
  const MinorWords: set<string> :=
    {"a", "an", "the", "and", "but", "or", "nor", "for", "so", "yet",
     "as", "at", "by", "from", "in", "into", "near", "of", "on", "onto", "over", "per",
     "to", "up", "via", "with", "within", "without"}

  /** Length of the leading run of characters that are all whitespace or all
      not whitespace. */
  function RunLength(s: string): (n: nat)
    requires s != []
    ensures 1 <= n <= |s|
    ensures forall i :: 0 <= i < n ==> IsSpace(s[i]) == IsSpace(s[0])
    ensures n == |s| || IsSpace(s[n]) != IsSpace(s[0])
    decreases |s|
  {
    if |s| == 1 || IsSpace(s[1]) != IsSpace(s[0]) then 1 else 1 + RunLength(s[1..])
  }

  /** `s.split(/(\s+)/)` for a trimmed, non-empty `s`: its maximal runs of
      non-whitespace and of whitespace, in order (the captured separators are
      kept, and no empty piece arises at either end). */
  function Chunks(s: string): (cs: seq<string>)
    ensures forall i :: 0 <= i < |cs| ==> cs[i] != []
    ensures s != [] ==> cs != []
    decreases |s|
  {
    if s == [] then [] else [s[..RunLength(s)]] + Chunks(s[RunLength(s)..])
  }

  lemma {:induction false} ChunksJoin(s: string)
    ensures Join(Chunks(s), "") == s
    decreases |s|
  {
    if s != [] {
      var n := RunLength(s);
      ChunksJoin(s[n..]);
      var cs := Chunks(s);
      assert cs[1..] == Chunks(s[n..]);
      if |cs| == 1 {
        assert s[n..] == [];
      } else {
        assert Join(cs, "") == s[..n] + "" + Join(cs[1..], "");
      }
      assert s == s[..n] + s[n..];
    }
  }

  /** The all-uppercase, short chunks kept as they are ("RJD2", "LCD"). */
  predicate IsAcronym(chunk: string) {
    Upper(chunk) == chunk && (exists i :: 0 <= i < |chunk| && 'A' <= chunk[i] <= 'Z') && |chunk| <= 6
  }

  /** The characters `[\p{L}\p{N}'’]` keeps, for ASCII text. */
  predicate KeepChar(c: char) {
    IsAsciiLetter(c) || IsDigit(c) || c == '\'' || c == '\U{2019}'
  }

  /** `w.replace(/[^\p{L}\p{N}'’]/gu, "")`. */
  function Cleaned(w: string): (r: string)
    ensures |r| <= |w|
    ensures (forall i :: 0 <= i < |w| ==> KeepChar(w[i])) ==> r == w
    decreases |w|
  {
    if w == [] then []
    else if KeepChar(w[0]) then [w[0]] + Cleaned(w[1..])
    else Cleaned(w[1..])
  }

  /** `w.replace(pat, rep)` with a string pattern: only the first occurrence. */
  function ReplaceFirst(w: string, pat: string, rep: string): string {
    match IndexOf(w, pat)
    case None => w
    case Some(i) => w[..i] + rep + w[i + |pat|..]
  }

  /** One hyphen-separated part of a word. */
  function TitleWord(w: string, isFirst: bool, isLast: bool): string {
    var cleaned := Cleaned(w);
    var lower := Lower(cleaned);
    if cleaned == [] then w
    else if !isFirst && !isLast && lower in MinorWords then ReplaceFirst(w, cleaned, lower)
    else ReplaceFirst(w, cleaned, [UpperChar(lower[0])] + lower[1..])
  }

  /** One chunk of the title, at index `idx` among `count` chunks. */
  function TitleChunk(chunk: string, idx: nat, count: nat): string {
    if chunk != [] && AllSpace(chunk) then chunk
    else if IsAcronym(chunk) then chunk
    else
      Join(TitleWords(chunk, idx, count), "-")
  }

  /** The hyphen parts of a chunk after casing: the first part of the first
      chunk and the last part of the last chunk are never minor. */
  function TitleWords(chunk: string, idx: nat, count: nat): (ws: seq<string>)
    ensures |ws| == |Split(chunk, "-")|
  {
    var hs := Split(chunk, "-");
    seq(|hs|, h requires 0 <= h < |hs| =>
      TitleWord(hs[h], idx == 0 && h == 0, idx == count - 1 && h == |hs| - 1))
  }

  /** The chunks of the trimmed title after casing. */
  function TitleChunks(s: string): (out: seq<string>)
    ensures |out| == |Chunks(s)|
  {
    var cs := Chunks(s);
    seq(|cs|, i requires 0 <= i < |cs| => TitleChunk(cs[i], i, |cs|))
  }

  /** `titleCaseEN`: "—" for blank input, otherwise the cased chunks joined. */
  function TitleCaseEN(input: string): (r: string)
    ensures Trim(input) == [] ==> r == "\U{2014}"
  {
    var s := Trim(input);
    if s == [] then "\U{2014}" else Join(TitleChunks(s), "")
  }

  /** `prettyTitle`: title case of the stripped title. */
  function PrettyTitle(raw: string): string {
    TitleCaseEN(StripTitleSuffixes(raw))
  }

  /** `prettyTitle` of a blank title is "—". */
  lemma PrettyTitleBlank(raw: string)
    requires AllSpace(raw)
    ensures PrettyTitle(raw) == "\U{2014}"
  {
    StripTitleSuffixesBlank(raw);
    TrimAllSpace([]);
  }

  // ------------------------------------------------- casing changes only case

  /** `a` and `b` have the same length and agree up to ASCII letter case. */
  predicate SameUpToCase(a: string, b: string) {
    |a| == |b| && forall i :: 0 <= i < |a| ==> LowerChar(a[i]) == LowerChar(b[i])
  }

  lemma SameUpToCaseAppend(a: string, b: string, c: string, d: string)
    requires SameUpToCase(a, c) && SameUpToCase(b, d)
    ensures SameUpToCase(a + b, c + d)
  {
    forall i | 0 <= i < |a + b| ensures LowerChar((a + b)[i]) == LowerChar((c + d)[i]) {
      if i < |a| {
        assert (a + b)[i] == a[i] && (c + d)[i] == c[i];
      } else {
        assert (a + b)[i] == b[i - |a|] && (c + d)[i] == d[i - |a|];
      }
    }
  }

  lemma {:induction false} SameUpToCaseJoin(ps: seq<string>, qs: seq<string>, sep: string)
    requires |ps| == |qs|
    requires forall i :: 0 <= i < |ps| ==> SameUpToCase(ps[i], qs[i])
    ensures SameUpToCase(Join(ps, sep), Join(qs, sep))
    decreases |ps|
  {
    if |ps| > 1 {
      SameUpToCaseJoin(ps[1..], qs[1..], sep);
      SameUpToCaseAppend(ps[0], sep, qs[0], sep);
      SameUpToCaseAppend(ps[0] + sep, Join(ps[1..], sep), qs[0] + sep, Join(qs[1..], sep));
    }
  }

  /** Replacing the first occurrence of a pattern by a text equal to it up to
      case changes only case. */
  lemma ReplaceFirstSameUpToCase(w: string, pat: string, rep: string)
    requires SameUpToCase(rep, pat)
    ensures SameUpToCase(ReplaceFirst(w, pat, rep), w)
  {
    match IndexOf(w, pat)
    case None =>
    case Some(i) =>
      assert w[i..i + |pat|] == pat;
      assert SameUpToCase(w[..i], w[..i]);
      assert SameUpToCase(w[i + |pat|..], w[i + |pat|..]);
      SameUpToCaseAppend(w[..i], rep, w[..i], pat);
      SameUpToCaseAppend(w[..i] + rep, w[i + |pat|..], w[..i] + pat, w[i + |pat|..]);
      assert w == w[..i] + pat + w[i + |pat|..];
  }

  lemma CaseRoundTrip(c: char)
    ensures LowerChar(LowerChar(c)) == LowerChar(c)
    ensures LowerChar(UpperChar(LowerChar(c))) == LowerChar(c)
  {
  }

  lemma TitleWordSameUpToCase(w: string, isFirst: bool, isLast: bool)
    ensures SameUpToCase(TitleWord(w, isFirst, isLast), w)
  {
    var cleaned := Cleaned(w);
    var lower := Lower(cleaned);
    if cleaned != [] {
      forall i | 0 <= i < |cleaned| ensures LowerChar(lower[i]) == LowerChar(cleaned[i]) {
        CaseRoundTrip(cleaned[i]);
      }
      var cap := [UpperChar(lower[0])] + lower[1..];
      forall i | 0 <= i < |cleaned| ensures LowerChar(cap[i]) == LowerChar(cleaned[i]) {
        CaseRoundTrip(cleaned[i]);
      }
      ReplaceFirstSameUpToCase(w, cleaned, lower);
      ReplaceFirstSameUpToCase(w, cleaned, cap);
    }
  }

  lemma TitleChunkSameUpToCase(chunk: string, idx: nat, count: nat)
    ensures SameUpToCase(TitleChunk(chunk, idx, count), chunk)
  {
    if !(chunk != [] && AllSpace(chunk)) && !IsAcronym(chunk) {
      var hs := Split(chunk, "-");
      var ws := TitleWords(chunk, idx, count);
      TitleWordsSameUpToCase(chunk, idx, count);
      SameUpToCaseJoin(ws, hs, "-");
      JoinSplit(chunk, "-");
    }
  }

  lemma TitleWordsSameUpToCase(chunk: string, idx: nat, count: nat)
    ensures var hs := Split(chunk, "-"); var ws := TitleWords(chunk, idx, count);
      forall h :: 0 <= h < |hs| ==> SameUpToCase(ws[h], hs[h])
  {
    var hs := Split(chunk, "-");
    forall h | 0 <= h < |hs| ensures SameUpToCase(TitleWords(chunk, idx, count)[h], hs[h]) {
      TitleWordSameUpToCase(hs[h], idx == 0 && h == 0, idx == count - 1 && h == |hs| - 1);
    }
  }

  /** For a non-blank title, `titleCaseEN` changes only the case of ASCII
      letters: the result has the trimmed input's length, and whitespace,
      digits and every other non-letter stay at the same positions. */
  lemma TitleCaseChangesOnlyCase(input: string)
    requires Trim(input) != []
    ensures SameUpToCase(TitleCaseEN(input), Trim(input))
    ensures forall i :: 0 <= i < |Trim(input)| && !IsAsciiLetter(Trim(input)[i]) ==>
      TitleCaseEN(input)[i] == Trim(input)[i]
  {
    var s := Trim(input);
    var cs := Chunks(s);
    var out := TitleChunks(s);
    forall i | 0 <= i < |cs| ensures SameUpToCase(out[i], cs[i]) {
      TitleChunkSameUpToCase(cs[i], i, |cs|);
    }
    SameUpToCaseJoin(out, cs, "");
    ChunksJoin(s);
    var r := TitleCaseEN(input);
    forall i | 0 <= i < |s| && !IsAsciiLetter(s[i]) ensures r[i] == s[i] {
      assert LowerChar(r[i]) == LowerChar(s[i]);
    }
  }

  // ---------------------------------------------------- acronyms and words

  /** An acronym chunk comes out unchanged. */
  lemma TitleCaseKeepsAcronym(s: string, i: nat)
    requires i < |Chunks(s)| && IsAcronym(Chunks(s)[i])
    ensures TitleChunks(s)[i] == Chunks(s)[i]
  {
  }

  /** A word of ASCII letters holds no hyphen. */
  lemma NoHyphenInLetters(w: string)
    requires forall k :: 0 <= k < |w| ==> IsAsciiLetter(w[k])
    ensures IndexOf(w, "-").None?
  {
    forall j: nat | j < |w| ensures !OccursAt(w, "-", j) {
      assert w[j..j + 1] == [w[j]];
    }
  }

  /** A chunk made of ASCII letters is a single hyphen part, and cleaning
      keeps it whole. */
  lemma PlainWordParts(chunk: string)
    requires chunk != [] && forall k :: 0 <= k < |chunk| ==> IsAsciiLetter(chunk[k])
    ensures Split(chunk, "-") == [chunk]
    ensures Cleaned(chunk) == chunk
    ensures IndexOf(chunk, chunk) == Some(0)
  {
    NoHyphenInLetters(chunk);
    assert forall k :: 0 <= k < |chunk| ==> KeepChar(chunk[k]);
    assert chunk[..|chunk|] == chunk;
  }

  /** A minor word made of ASCII letters, neither the first nor the last
      chunk and not an acronym, comes out in lower case. */
  lemma TitleCaseMinorWord(s: string, i: nat)
    requires 0 < i < |Chunks(s)| - 1
    requires forall k :: 0 <= k < |Chunks(s)[i]| ==> IsAsciiLetter(Chunks(s)[i][k])
    requires Lower(Chunks(s)[i]) in MinorWords && !IsAcronym(Chunks(s)[i])
    ensures TitleChunks(s)[i] == Lower(Chunks(s)[i])
  {
    var chunk := Chunks(s)[i];
    PlainWordParts(chunk);
    assert !AllSpace(chunk) by {
      assert !IsSpace(chunk[0]);
    }
    var hs := Split(chunk, "-");
    var lower := Lower(chunk);
    assert TitleWord(chunk, false, false) == lower by {
      assert chunk[..0] + lower + chunk[|chunk|..] == lower;
    }
    var ws := TitleWords(chunk, i, |Chunks(s)|);
    assert ws == [lower];
  }

  /** Any other word made of ASCII letters that is not an acronym gets an
      upper-case first letter and a lower-case rest. */
  lemma TitleCaseCapitalises(s: string, i: nat)
    requires i < |Chunks(s)|
    requires forall k :: 0 <= k < |Chunks(s)[i]| ==> IsAsciiLetter(Chunks(s)[i][k])
    requires !IsAcronym(Chunks(s)[i])
    requires i == 0 || i == |Chunks(s)| - 1 || Lower(Chunks(s)[i]) !in MinorWords
    ensures var chunk := Chunks(s)[i];
      TitleChunks(s)[i] == [UpperChar(LowerChar(chunk[0]))] + Lower(chunk[1..])
  {
    var chunk := Chunks(s)[i];
    PlainWordParts(chunk);
    assert !AllSpace(chunk) by {
      assert !IsSpace(chunk[0]);
    }
    var hs := Split(chunk, "-");
    var lower := Lower(chunk);
    var cap := [UpperChar(lower[0])] + lower[1..];
    assert lower[1..] == Lower(chunk[1..]);
    var isFirst := i == 0;
    var isLast := i == |Chunks(s)| - 1;
    assert TitleWord(chunk, isFirst, isLast) == cap by {
      assert chunk[..0] + cap + chunk[|chunk|..] == cap;
    }
    var ws := TitleWords(chunk, i, |Chunks(s)|);
    assert ws == [cap];
  }
}
