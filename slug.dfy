/** URL slugs and file names: `slugify` (scripts/seed-programs-from-static.mjs,
    public/scripts/import-programs-from-site.mjs) and `safeFilename`
    (public/scripts/export-news.mjs). Both lower-case the text, turn every run
    of characters outside `[a-z0-9]` into one `-`, strip dashes at both ends
    and cut the result. */
module Slug {
  import opened Common
  import opened Text

  predicate IsSlugChar(c: char) {
    'a' <= c <= 'z' || '0' <= c <= '9'
  }

  /** Only `[a-z0-9-]`, no `-` at either end, never two dashes in a row. */
  predicate WellFormed(s: string) {
    (forall i :: 0 <= i < |s| ==> IsSlugChar(s[i]) || s[i] == '-') &&
    (s != [] ==> s[0] != '-' && s[|s| - 1] != '-') &&
    (forall i :: 0 <= i < |s| - 1 ==> !(s[i] == '-' && s[i + 1] == '-'))
  }

  /** `s.replace(/[^a-z0-9]+/g, "-")`. */
  function DashRuns(s: string): (r: string)
    ensures forall i :: 0 <= i < |r| ==> IsSlugChar(r[i]) || r[i] == '-'
    ensures s != [] ==> r != [] && (r[0] == '-' <==> !IsSlugChar(s[0]))
    decreases |s|
  {
    if s == [] then []
    else if IsSlugChar(s[0]) then [s[0]] + DashRuns(s[1..])
    else if |s| > 1 && !IsSlugChar(s[1]) then DashRuns(s[1..])
    else "-" + DashRuns(s[1..])
  }

  /** The letters and digits of a text, in order. */
  function Alnum(s: string): (r: string)
    ensures forall i :: 0 <= i < |r| ==> IsSlugChar(r[i])
    decreases |s|
  {
    if s == [] then [] else (if IsSlugChar(s[0]) then [s[0]] else []) + Alnum(s[1..])
  }

  /** `s.replace(/^-+/, "")`. */
  function DropLeading(s: string, c: char): (r: string)
    ensures |r| <= |s| && r == s[|s| - |r|..]
    ensures r == [] || r[0] != c
    ensures forall i :: 0 <= i < |s| - |r| ==> s[i] == c
    decreases |s|
  {
    if s != [] && s[0] == c then DropLeading(s[1..], c) else s
  }

  /** `s.replace(/^-+|-+$/g, "")`. */
  function StripDashes(s: string): string {
    DropTrailing(DropLeading(s, '-'), '-')
  }

  /** The part shared by `slugify` and `safeFilename`, before the cut. */
  function SlugCore(s: string): string {
    StripDashes(DashRuns(s))
  }

  /** `.replace(/[̀-ͯ]/g, "")`: combining diacritical marks removed. */
  function DropMarks(s: string): (r: string)
    ensures forall i :: 0 <= i < |r| ==> !('̀' <= r[i] <= 'ͯ')
    decreases |s|
  {
    if s == [] then []
    else (if '̀' <= s[0] <= 'ͯ' then [] else [s[0]]) + DropMarks(s[1..])
  }

  /** `slugify(input)`: at most 80 characters. */
  function Slugify(v: JsValue): string {
    SliceTo(SlugCore(DropMarks(Lower(Field(v)))), 80)
  }

  /** `safeFilename(name)`: at most 120 characters. */
  function SafeFilename(name: string): string {
    SliceTo(SlugCore(Lower(name)), 120)
  }

  // ------------------------------------------------------------------ proofs

  lemma {:induction false} DashRunsNoDouble(s: string)
    ensures forall i :: 0 <= i < |DashRuns(s)| - 1 ==> !(DashRuns(s)[i] == '-' && DashRuns(s)[i + 1] == '-')
    decreases |s|
  {
    if s != [] {
      DashRunsNoDouble(s[1..]);
      var r := DashRuns(s);
      var t := DashRuns(s[1..]);
      if IsSlugChar(s[0]) {
        assert r == [s[0]] + t;
      } else if |s| > 1 && !IsSlugChar(s[1]) {
        assert r == t;
      } else {
        assert r == "-" + t;
        assert t != [] ==> t[0] != '-';
      }
    }
  }

  lemma {:induction false} DashRunsKeepsAlnum(s: string)
    ensures Alnum(DashRuns(s)) == Alnum(s)
    decreases |s|
  {
    if s != [] {
      DashRunsKeepsAlnum(s[1..]);
      var t := DashRuns(s[1..]);
      if IsSlugChar(s[0]) {
        assert ([s[0]] + t)[1..] == t;
      } else if !(|s| > 1 && !IsSlugChar(s[1])) {
        assert ("-" + t)[1..] == t;
      }
    }
  }

  lemma {:induction false} AlnumAppend(a: string, b: string)
    ensures Alnum(a + b) == Alnum(a) + Alnum(b)
    decreases |a|
  {
    if a != [] {
      var ab := a + b;
      var h: string := if IsSlugChar(a[0]) then [a[0]] else [];
      assert ab[0] == a[0] && ab[1..] == a[1..] + b;
      AlnumAppend(a[1..], b);
      assert Alnum(ab) == h + Alnum(a[1..] + b);
      assert Alnum(a) == h + Alnum(a[1..]);
    } else {
      assert a + b == b;
    }
  }

  lemma {:induction false} AlnumDashes(s: string)
    requires forall i :: 0 <= i < |s| ==> s[i] == '-'
    ensures Alnum(s) == []
    decreases |s|
  {
    if s != [] {
      AlnumDashes(s[1..]);
    }
  }

  lemma DropLeadingKeepsAlnum(s: string)
    ensures Alnum(DropLeading(s, '-')) == Alnum(s)
  {
    var l := DropLeading(s, '-');
    assert s == s[..|s| - |l|] + l;
    AlnumAppend(s[..|s| - |l|], l);
    AlnumDashes(s[..|s| - |l|]);
  }

  lemma DropTrailingKeepsAlnum(l: string)
    ensures Alnum(DropTrailing(l, '-')) == Alnum(l)
  {
    var r := DropTrailing(l, '-');
    assert l == r + l[|r|..];
    AlnumAppend(r, l[|r|..]);
    AlnumDashes(l[|r|..]);
  }

  /** Stripping dashes loses no letter or digit. */
  lemma StripDashesKeepsAlnum(s: string)
    ensures Alnum(StripDashes(s)) == Alnum(s)
  {
    DropLeadingKeepsAlnum(s);
    DropTrailingKeepsAlnum(DropLeading(s, '-'));
  }

  lemma SliceWellFormedInner(s: string, i: nat, j: nat)
    requires i <= j <= |s|
    requires forall k :: 0 <= k < |s| ==> IsSlugChar(s[k]) || s[k] == '-'
    requires forall k :: 0 <= k < |s| - 1 ==> !(s[k] == '-' && s[k + 1] == '-')
    ensures var t := s[i..j];
      (forall k :: 0 <= k < |t| ==> IsSlugChar(t[k]) || t[k] == '-') &&
      (forall k :: 0 <= k < |t| - 1 ==> !(t[k] == '-' && t[k + 1] == '-'))
  {
    var t := s[i..j];
    forall k | 0 <= k < |t| - 1 ensures !(t[k] == '-' && t[k + 1] == '-') {
      assert t[k] == s[i + k] && t[k + 1] == s[i + k + 1];
    }
  }

  lemma StripDashesWellFormed(d: string)
    requires forall k :: 0 <= k < |d| ==> IsSlugChar(d[k]) || d[k] == '-'
    requires forall k :: 0 <= k < |d| - 1 ==> !(d[k] == '-' && d[k + 1] == '-')
    ensures WellFormed(StripDashes(d))
  {
    var l := DropLeading(d, '-');
    var r := DropTrailing(l, '-');
    SuffixInner(d, l);
    PrefixInner(l, r);
    EndsOfStrip(l, r);
    WellFormedOfInner(r);
  }

  lemma EndsOfStrip(l: string, r: string)
    requires l == [] || l[0] != '-'
    requires |r| <= |l| && r == l[..|r|] && (r == [] || r[|r| - 1] != '-')
    ensures r != [] ==> r[0] != '-' && r[|r| - 1] != '-'
  {
    if r != [] {
      assert r[0] == l[0];
    }
  }

  lemma WellFormedOfInner(r: string)
    requires Inner(r) && (r != [] ==> r[0] != '-' && r[|r| - 1] != '-')
    ensures WellFormed(r)
  {
  }

  /** Dashes only between letters or digits, and never two in a row. */
  predicate Inner(s: string) {
    (forall k :: 0 <= k < |s| ==> IsSlugChar(s[k]) || s[k] == '-') &&
    (forall k :: 0 <= k < |s| - 1 ==> !(s[k] == '-' && s[k + 1] == '-'))
  }

  lemma SuffixInner(s: string, t: string)
    requires Inner(s) && |t| <= |s| && t == s[|s| - |t|..]
    ensures Inner(t)
  {
    SliceWellFormedInner(s, |s| - |t|, |s|);
    assert t == s[|s| - |t|..|s|];
  }

  lemma PrefixInner(s: string, t: string)
    requires Inner(s) && |t| <= |s| && t == s[..|t|]
    ensures Inner(t)
  {
    SliceWellFormedInner(s, 0, |t|);
    assert t == s[0..|t|];
  }

  /** The slug core is well formed and keeps every letter and digit of the
      text, in order. */
  lemma SlugCoreWellFormed(s: string)
    ensures WellFormed(SlugCore(s))
    ensures Alnum(SlugCore(s)) == Alnum(s)
  {
    DashRunsNoDouble(s);
    StripDashesWellFormed(DashRuns(s));
    DashRunsKeepsAlnum(s);
    StripDashesKeepsAlnum(DashRuns(s));
  }

  /** What the cut to `n` characters can break: only a trailing dash may
      appear, and only when the core was longer than `n`. */
  lemma CutSlug(core: string, n: nat)
    requires WellFormed(core)
    ensures var r := SliceTo(core, n);
      |r| <= n &&
      (forall i :: 0 <= i < |r| ==> IsSlugChar(r[i]) || r[i] == '-') &&
      (r != [] ==> r[0] != '-') &&
      (forall i :: 0 <= i < |r| - 1 ==> !(r[i] == '-' && r[i + 1] == '-')) &&
      (r != [] && r[|r| - 1] == '-' ==> |core| > n) &&
      (|core| <= n ==> r == core)
  {
    var r := SliceTo(core, n);
    SliceWellFormedInner(core, 0, |r|);
    assert r == core[0..|r|];
  }

  /** `slugify` keeps to `[a-z0-9-]`, never starts with `-`, never holds
      `--`, has at most 80 characters, and ends with `-` only when the cut
      to 80 characters left one there. */
  lemma SlugifyShape(v: JsValue)
    ensures var r := Slugify(v); var core := SlugCore(DropMarks(Lower(Field(v))));
      |r| <= 80 &&
      (forall i :: 0 <= i < |r| ==> IsSlugChar(r[i]) || r[i] == '-') &&
      (r != [] ==> r[0] != '-') &&
      (forall i :: 0 <= i < |r| - 1 ==> !(r[i] == '-' && r[i + 1] == '-')) &&
      (r != [] && r[|r| - 1] == '-' ==> |core| > 80)
  {
    SlugCoreWellFormed(DropMarks(Lower(Field(v))));
    CutSlug(SlugCore(DropMarks(Lower(Field(v)))), 80);
  }

  /** `safeFilename` keeps to `[a-z0-9-]`, never starts with `-` and has at
      most 120 characters. */
  lemma SafeFilenameShape(name: string)
    ensures var r := SafeFilename(name);
      |r| <= 120 &&
      (forall i :: 0 <= i < |r| ==> IsSlugChar(r[i]) || r[i] == '-') &&
      (r != [] ==> r[0] != '-')
  {
    SlugCoreWellFormed(Lower(name));
    CutSlug(SlugCore(Lower(name)), 120);
  }

  lemma {:induction false} DashRunsOfWellFormed(s: string)
    requires forall i :: 0 <= i < |s| ==> IsSlugChar(s[i]) || s[i] == '-'
    requires forall i :: 0 <= i < |s| - 1 ==> !(s[i] == '-' && s[i + 1] == '-')
    ensures DashRuns(s) == s
    decreases |s|
  {
    if s != [] {
      var t := s[1..];
      forall i | 0 <= i < |t| - 1 ensures !(t[i] == '-' && t[i + 1] == '-') {
        assert t[i] == s[i + 1] && t[i + 1] == s[i + 2];
      }
      DashRunsOfWellFormed(t);
      if !IsSlugChar(s[0]) {
        assert s[0] == '-';
        assert |s| > 1 ==> s[1] != '-' && IsSlugChar(s[1]);
      }
    }
  }

  /** A well-formed slug is its own slug core. */
  lemma SlugCoreOfWellFormed(s: string)
    requires WellFormed(s)
    ensures SlugCore(s) == s
  {
    DashRunsOfWellFormed(s);
    NoDashToStrip(s);
  }

  /** Dashes are stripped only at the ends. */
  lemma NoDashToStrip(s: string)
    requires s != [] ==> s[0] != '-' && s[|s| - 1] != '-'
    ensures StripDashes(s) == s
  {
    assert DropLeading(s, '-') == s;
    assert DropTrailing(s, '-') == s;
  }

  /** Running the core a second time changes nothing. */
  lemma SlugCoreIdempotent(s: string)
    ensures SlugCore(SlugCore(s)) == SlugCore(s)
  {
    SlugCoreWellFormed(s);
    SlugCoreOfWellFormed(SlugCore(s));
  }

  lemma LowerOfSlugChars(s: string)
    requires forall i :: 0 <= i < |s| ==> IsSlugChar(s[i]) || s[i] == '-'
    ensures Lower(s) == s && DropMarks(s) == s && Trim(s) == s
  {
    LowerKeepsSlugChars(s);
    DropMarksOfSlugChars(s);
    if s != [] {
      SlugCharNotSpace(s[0]);
      SlugCharNotSpace(s[|s| - 1]);
    }
    TrimOfTrimmed(s);
  }

  lemma SlugCharNotSpace(c: char)
    requires IsSlugChar(c) || c == '-'
    ensures !IsSpace(c)
  {
  }

  lemma LowerKeepsSlugChars(s: string)
    requires forall i :: 0 <= i < |s| ==> IsSlugChar(s[i]) || s[i] == '-'
    ensures Lower(s) == s
  {
    forall i | 0 <= i < |s| ensures Lower(s)[i] == s[i] {
      assert LowerChar(s[i]) == s[i];
    }
  }

  lemma {:induction false} DropMarksOfSlugChars(s: string)
    requires forall i :: 0 <= i < |s| ==> IsSlugChar(s[i]) || s[i] == '-'
    ensures DropMarks(s) == s
    decreases |s|
  {
    if s != [] {
      DropMarksOfSlugChars(s[1..]);
      assert DropMarks(s) == [s[0]] + DropMarks(s[1..]);
    }
  }

  /** A well-formed slug of at most 80 characters is its own slug, so a
      title that already is a slug keeps it. */
  lemma SlugifyOfSlug(s: string)
    requires WellFormed(s) && 0 < |s| <= 80
    ensures Slugify(Str(s)) == s
  {
    LowerOfSlugChars(s);
    SlugCoreOfWellFormed(s);
  }
}
