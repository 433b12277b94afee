/** The JavaScript string primitives the site's scripts are built from: the
    whitespace class shared by `\s` and `trim()`, ASCII case mapping, literal
    search, replace-all, split and join on a literal separator, `slice(0, n)`,
    and the `/\s+/g -> " "` whitespace collapse. */
module Text {
  import opened Common

  /** ECMAScript WhiteSpace and LineTerminator code points: exactly the class
      `\s` matches and the characters `trim()` removes. */
  predicate IsSpace(c: char) {
    c == '\t' || c == '\n' || c == '\U{B}' || c == '\U{C}' || c == '\r' || c == ' ' ||
    c == '\U{A0}' || c == '\U{1680}' || ('\U{2000}' <= c <= '\U{200A}') ||
    c == '\U{2028}' || c == '\U{2029}' || c == '\U{202F}' || c == '\U{205F}' ||
    c == '\U{3000}' || c == '\U{FEFF}'
  }

  predicate AllSpace(s: string) {
    forall i :: 0 <= i < |s| ==> IsSpace(s[i])
  }

  /** Neither end of `s` is whitespace. */
  predicate IsTrimmed(s: string) {
    s == [] || (!IsSpace(s[0]) && !IsSpace(s[|s| - 1]))
  }

  /** No two adjacent characters are both whitespace. */
  predicate NoDoubleSpace(s: string) {
    forall i :: 0 <= i < |s| - 1 ==> !(IsSpace(s[i]) && IsSpace(s[i + 1]))
  }

  predicate IsDigit(c: char) {
    '0' <= c <= '9'
  }

  predicate IsAsciiLetter(c: char) {
    ('a' <= c <= 'z') || ('A' <= c <= 'Z')
  }

  /** The characters of `\w`, which decide where `\b` sits. */
  predicate IsWordChar(c: char) {
    IsAsciiLetter(c) || IsDigit(c) || c == '_'
  }

  // ---------------------------------------------------------------- trimming

  function TrimStart(s: string): (r: string)
    ensures |r| <= |s| && r == s[|s| - |r|..]
    ensures AllSpace(s[..|s| - |r|])
    ensures r == [] || !IsSpace(r[0])
  {
    if s != [] && IsSpace(s[0]) then
      var r := TrimStart(s[1..]);
      assert s[1..][..|s| - 1 - |r|] == s[1..|s| - |r|];
      r
    else s
  }

  /** The first position at or after `i` that is not whitespace: where a
      `\s*` started at `i` stops. */
  function SkipSpaces(s: string, i: nat): (r: nat)
    requires i <= |s|
    ensures i <= r <= |s|
    ensures forall k :: i <= k < r ==> IsSpace(s[k])
    ensures r < |s| ==> !IsSpace(s[r])
    decreases |s| - i
  {
    if i < |s| && IsSpace(s[i]) then SkipSpaces(s, i + 1) else i
  }

  /** `String.prototype.trim`: whitespace is taken off either end, one
      character at a time. */
  function Trim(s: string): (r: string)
    ensures IsTrimmed(r)
    ensures |r| <= |s|
    decreases |s|
  {
    if s != [] && IsSpace(s[0]) then Trim(s[1..])
    else if s != [] && IsSpace(s[|s| - 1]) then Trim(s[..|s| - 1])
    else s
  }

  /** Trimming only removes characters: whatever holds of every character of
      `s` holds of every character of `Trim(s)`. */
  lemma {:induction false} TrimKeeps(s: string, p: char -> bool)
    requires forall i :: 0 <= i < |s| ==> p(s[i])
    ensures forall i :: 0 <= i < |Trim(s)| ==> p(Trim(s)[i])
    decreases |s|
  {
    if s != [] && IsSpace(s[0]) {
      TrimKeeps(s[1..], p);
    } else if s != [] && IsSpace(s[|s| - 1]) {
      TrimKeeps(s[..|s| - 1], p);
    }
  }

  lemma TrimOfTrimmed(s: string)
    requires IsTrimmed(s)
    ensures Trim(s) == s
  {
  }

  /** Surrounding whitespace is exactly what `trim()` takes away. */
  lemma {:induction false} TrimPadded(a: string, s: string, b: string)
    requires AllSpace(a) && AllSpace(b) && IsTrimmed(s) && s != []
    ensures Trim(a + s + b) == s
    decreases |a| + |b|
  {
    var t := a + s + b;
    if a != [] {
      assert t[0] == a[0];
      assert t[1..] == a[1..] + s + b;
      TrimPadded(a[1..], s, b);
    } else if b != [] {
      assert t[0] == s[0];
      assert t[|t| - 1] == b[|b| - 1];
      assert t[..|t| - 1] == a + s + b[..|b| - 1];
      TrimPadded(a, s, b[..|b| - 1]);
    } else {
      assert t == s;
    }
  }

  /** A leading whitespace character makes no difference to `trim()`. */
  lemma TrimDropFirst(s: string)
    requires s != [] && IsSpace(s[0])
    ensures Trim(s) == Trim(s[1..])
  {
  }

  /** A trailing whitespace character makes no difference to `trim()`. */
  lemma {:induction false} TrimDropLast(s: string)
    requires s != [] && IsSpace(s[|s| - 1])
    ensures Trim(s) == Trim(s[..|s| - 1])
    decreases |s|
  {
    if IsSpace(s[0]) && |s| > 1 {
      var u := s[1..];
      TrimDropLast(u);
      assert u[..|u| - 1] == s[..|s| - 1][1..];
    }
  }

  lemma {:induction false} TrimAllSpace(s: string)
    ensures Trim(s) == [] <==> AllSpace(s)
    decreases |s|
  {
    if s != [] && IsSpace(s[0]) {
      TrimAllSpace(s[1..]);
      assert AllSpace(s) <==> AllSpace(s[1..]) by {
        if AllSpace(s[1..]) {
          forall i | 0 <= i < |s| ensures IsSpace(s[i]) {
            if i > 0 {
              assert s[i] == s[1..][i - 1];
            }
          }
        }
      }
    } else if s != [] && IsSpace(s[|s| - 1]) {
      TrimAllSpace(s[..|s| - 1]);
      assert s[..|s| - 1][0] == s[0];
    }
  }

  /** `trim()` keeps a contiguous piece of its input. */
  lemma {:induction false} TrimIsSlice(s: string)
    ensures exists i: nat, j: nat :: i <= j <= |s| && Trim(s) == s[i..j]
    decreases |s|
  {
    if s != [] && IsSpace(s[0]) {
      TrimIsSlice(s[1..]);
      var i: nat, j: nat :| i <= j <= |s| - 1 && Trim(s[1..]) == s[1..][i..j];
      assert s[1..][i..j] == s[i + 1..j + 1];
    } else if s != [] && IsSpace(s[|s| - 1]) {
      TrimIsSlice(s[..|s| - 1]);
      var i: nat, j: nat :| i <= j <= |s| - 1 && Trim(s[..|s| - 1]) == s[..|s| - 1][i..j];
      assert s[..|s| - 1][i..j] == s[i..j];
    } else {
      assert s == s[0..|s|];
    }
  }

  // ------------------------------------------------------------ case mapping

  /** `toLowerCase` on one character, ASCII letters only. */
  function LowerChar(c: char): char {
    if 'A' <= c <= 'Z' then (c as int + 32) as char else c
  }

  /** `toUpperCase` on one character, ASCII letters only. */
  function UpperChar(c: char): char {
    if 'a' <= c <= 'z' then (c as int - 32) as char else c
  }

  /** Case mapping leaves whitespace alone and creates none. */
  lemma CaseKeepsSpace(c: char)
    ensures IsSpace(c) ==> LowerChar(c) == c && UpperChar(c) == c
    ensures IsSpace(LowerChar(c)) <==> IsSpace(c)
    ensures IsSpace(UpperChar(c)) <==> IsSpace(c)
  {
  }

  function Lower(s: string): (r: string)
    ensures |r| == |s|
    ensures forall i :: 0 <= i < |s| ==> r[i] == LowerChar(s[i])
  {
    seq(|s|, i requires 0 <= i < |s| => LowerChar(s[i]))
  }

  function Upper(s: string): (r: string)
    ensures |r| == |s|
    ensures forall i :: 0 <= i < |s| ==> r[i] == UpperChar(s[i])
  {
    seq(|s|, i requires 0 <= i < |s| => UpperChar(s[i]))
  }

  lemma LowerAppend(a: string, b: string)
    ensures Lower(a + b) == Lower(a) + Lower(b)
  {
  }

  lemma UpperAppend(a: string, b: string)
    ensures Upper(a + b) == Upper(a) + Upper(b)
  {
  }

  lemma LowerSlice(s: string, i: nat, j: nat)
    requires i <= j <= |s|
    ensures Lower(s[i..j]) == Lower(s)[i..j]
  {
  }

  // ---------------------------------------------------------- literal search

  predicate StartsWith(s: string, p: string) {
    |p| <= |s| && s[..|p|] == p
  }

  predicate EndsWith(s: string, p: string) {
    |p| <= |s| && s[|s| - |p|..] == p
  }

  /** `p` (written in lower case) starts `s` under the regex flag `i`. */
  predicate StartsWithCI(s: string, p: string) {
    |p| <= |s| && Lower(s[..|p|]) == p
  }

  predicate OccursAt(s: string, pat: string, i: nat) {
    i + |pat| <= |s| && s[i..i + |pat|] == pat
  }

  predicate Contains(s: string, pat: string) {
    exists i: nat :: i <= |s| && OccursAt(s, pat, i)
  }

  /** `s.indexOf(pat)`: the leftmost occurrence. */
  function IndexOf(s: string, pat: string): (r: Option<nat>)
    ensures r.Some? ==> OccursAt(s, pat, r.value)
    ensures r.Some? ==> forall j: nat :: j < r.value ==> !OccursAt(s, pat, j)
    ensures r.None? ==> forall j: nat :: !OccursAt(s, pat, j)
    decreases |s|
  {
    if |s| < |pat| then None
    else if s[..|pat|] == pat then Some(0)
    else
      var rest := IndexOf(s[1..], pat);
      assert forall j: nat :: OccursAt(s, pat, j + 1) <==> OccursAt(s[1..], pat, j) by {
        forall j: nat ensures OccursAt(s, pat, j + 1) <==> OccursAt(s[1..], pat, j) {
          if j + 1 + |pat| <= |s| {
            assert s[1..][j..j + |pat|] == s[j + 1..j + 1 + |pat|];
          }
        }
      }
      assert !OccursAt(s, pat, 0);
      assert forall j: nat :: j > 0 ==> (OccursAt(s, pat, j) <==> OccursAt(s[1..], pat, j - 1));
      match rest
      case None => None
      case Some(k) => Some(k + 1)
  }

  lemma IndexOfContains(s: string, pat: string)
    ensures IndexOf(s, pat).Some? <==> Contains(s, pat)
  {
  }

  // --------------------------------------------------------------- replacing

  /** `s.replace(/pat/g, rep)` / `s.replaceAll(pat, rep)` for a literal, non-empty
      pattern: occurrences are replaced left to right without overlapping. */
  function ReplaceAll(s: string, pat: string, rep: string): string
    requires pat != []
    decreases |s|
  {
    if |s| < |pat| then s
    else if s[..|pat|] == pat then rep + ReplaceAll(s[|pat|..], pat, rep)
    else [s[0]] + ReplaceAll(s[1..], pat, rep)
  }

  /** Character-by-character rewriting: each character becomes a string. */
  function MapChars(s: string, f: char -> string): string {
    if s == [] then [] else f(s[0]) + MapChars(s[1..], f)
  }

  lemma {:induction false} MapCharsAppend(a: string, b: string, f: char -> string)
    ensures MapChars(a + b, f) == MapChars(a, f) + MapChars(b, f)
  {
    if a == [] {
      assert a + b == b;
    } else {
      assert (a + b)[0] == a[0];
      assert (a + b)[1..] == a[1..] + b;
      MapCharsAppend(a[1..], b, f);
      assert MapChars(a + b, f) == f(a[0]) + MapChars(a[1..] + b, f);
    }
  }

  /** Rewriting twice is rewriting once with the composed rule. */
  lemma {:induction false} MapCharsCompose(s: string, f: char -> string, g: char -> string)
    ensures MapChars(MapChars(s, f), g) == MapChars(s, c => MapChars(f(c), g))
  {
    if s != [] {
      MapCharsAppend(f(s[0]), MapChars(s[1..], f), g);
      MapCharsCompose(s[1..], f, g);
    }
  }

  lemma {:induction false} MapCharsAvoids(s: string, f: char -> string, x: char)
    requires forall c :: x !in f(c)
    ensures x !in MapChars(s, f)
  {
    if s != [] {
      MapCharsAvoids(s[1..], f, x);
    }
  }

  /** A rewrite that keeps every character of `s` keeps `s`. */
  lemma {:induction false} MapCharsFixed(s: string, f: char -> string)
    requires forall i :: 0 <= i < |s| ==> f(s[i]) == [s[i]]
    ensures MapChars(s, f) == s
  {
    if s != [] {
      MapCharsFixed(s[1..], f);
    }
  }

  /** Rewrites that agree on every character agree on every text. */
  lemma {:induction false} MapCharsExt(s: string, f: char -> string, g: char -> string)
    requires forall c :: f(c) == g(c)
    ensures MapChars(s, f) == MapChars(s, g)
  {
    if s != [] {
      MapCharsExt(s[1..], f, g);
    }
  }

  /** Replacing a single character is a character-by-character rewrite. */
  lemma {:induction false} ReplaceCharIsMap(s: string, c: char, rep: string)
    ensures ReplaceAll(s, [c], rep) == MapChars(s, x => if x == c then rep else [x])
    decreases |s|
  {
    if s != [] {
      assert s[..1] == [s[0]];
      ReplaceCharIsMap(s[1..], c, rep);
    }
  }

  lemma {:induction false} ReplaceAllAbsent(s: string, pat: string, rep: string)
    requires pat != []
    requires !Contains(s, pat)
    ensures ReplaceAll(s, pat, rep) == s
    decreases |s|
  {
    if |s| >= |pat| {
      assert !OccursAt(s, pat, 0);
      assert !Contains(s[1..], pat) by {
        forall j: nat ensures !OccursAt(s[1..], pat, j) {
          assert !OccursAt(s, pat, j + 1);
          if j + |pat| <= |s| - 1 {
            assert s[1..][j..j + |pat|] == s[j + 1..j + 1 + |pat|];
          }
        }
      }
      ReplaceAllAbsent(s[1..], pat, rep);
    }
  }

  /** `String(v || "").trim()`: a form field as the site's handlers read it. */
  function Field(v: JsValue): string {
    Trim(StrOr(v, ""))
  }

  /** `s.replace(/c+$/, "")`: every trailing `c` removed. */
  function DropTrailing(s: string, c: char): (r: string)
    ensures |r| <= |s| && r == s[..|r|]
    ensures r == [] || r[|r| - 1] != c
    ensures forall i :: |r| <= i < |s| ==> s[i] == c
    decreases |s|
  {
    if s != [] && s[|s| - 1] == c then DropTrailing(s[..|s| - 1], c) else s
  }

  /** Removing the trailing run twice removes nothing more. */
  lemma DropTrailingIdempotent(s: string, c: char)
    ensures DropTrailing(DropTrailing(s, c), c) == DropTrailing(s, c)
  {
  }

  // ---------------------------------------------------- splitting and joining

  /** `s.split(sep)` for a literal, non-empty separator. */
  function Split(s: string, sep: string): (parts: seq<string>)
    requires sep != []
    ensures |parts| >= 1
    decreases |s|
  {
    match IndexOf(s, sep)
    case None => [s]
    case Some(i) => [s[..i]] + Split(s[i + |sep|..], sep)
  }

  /** `parts.join(sep)`. */
  function Join(parts: seq<string>, sep: string): string {
    if parts == [] then []
    else if |parts| == 1 then parts[0]
    else parts[0] + sep + Join(parts[1..], sep)
  }

  /** Splitting and joining back with the same separator gives the text back. */
  lemma {:induction false} JoinSplit(s: string, sep: string)
    requires sep != []
    ensures Join(Split(s, sep), sep) == s
    decreases |s|
  {
    match IndexOf(s, sep)
    case None =>
    case Some(i) =>
      var rest := s[i + |sep|..];
      var parts := Split(rest, sep);
      JoinSplit(rest, sep);
      assert Split(s, sep) == [s[..i]] + parts;
      assert Join([s[..i]] + parts, sep) == s[..i] + sep + Join(parts, sep) by {
        assert ([s[..i]] + parts)[1..] == parts;
      }
      assert s[i..i + |sep|] == sep;
      assert s == s[..i] + s[i..i + |sep|] + rest;
  }

  /** A joined list is the join of a first part of it, one separator and
      the join of the rest. */
  lemma {:induction false} JoinAt(parts: seq<string>, sep: string, i: nat)
    requires 0 < i < |parts|
    ensures Join(parts, sep) == Join(parts[..i], sep) + sep + Join(parts[i..], sep)
    decreases i
  {
    var tail := parts[1..];
    if i == 1 {
      assert parts[..1] == [parts[0]];
      assert parts[1..] == tail;
    } else {
      JoinAt(tail, sep, i - 1);
      assert tail[i - 1..] == parts[i..];
      assert parts[..i][0] == parts[0] && |parts[..i]| == i;
      assert parts[..i][1..] == tail[..i - 1];
      calc {
        Join(parts, sep);
        parts[0] + sep + Join(tail, sep);
        parts[0] + sep + (Join(tail[..i - 1], sep) + sep + Join(parts[i..], sep));
        (parts[0] + sep + Join(tail[..i - 1], sep)) + sep + Join(parts[i..], sep);
        Join(parts[..i], sep) + sep + Join(parts[i..], sep);
      }
    }
  }

  // ------------------------------------------------------------------ slicing

  /** `s.slice(0, n)`: a negative `n` counts from the end. */
  function SliceTo(s: string, n: int): (r: string)
    ensures |r| <= |s| && r == s[..|r|]
    ensures n >= 0 ==> |r| == if n <= |s| then n else |s|
    ensures n < 0 ==> |r| == if |s| + n <= 0 then 0 else |s| + n
  {
    if n < 0 then (if |s| + n <= 0 then [] else s[..|s| + n])
    else if n >= |s| then s
    else s[..n]
  }

  // ------------------------------------------------------ whitespace collapse

  /** `s.replace(/\s+/g, " ")`: every maximal whitespace run becomes one space. */
  function CollapseSpaces(s: string): (r: string)
    ensures |r| <= |s|
    ensures r == [] <==> s == []
    ensures s != [] ==> (IsSpace(r[0]) <==> IsSpace(s[0]))
    decreases |s|
  {
    if s == [] then []
    else if IsSpace(s[0]) then [' '] + CollapseSpaces(TrimStart(s))
    else [s[0]] + CollapseSpaces(s[1..])
  }

  lemma {:induction false} CollapseNoDoubleSpace(s: string)
    ensures NoDoubleSpace(CollapseSpaces(s))
    decreases |s|
  {
    if s != [] {
      var t := if IsSpace(s[0]) then TrimStart(s) else s[1..];
      CollapseNoDoubleSpace(t);
      var r := CollapseSpaces(s);
      var x := if IsSpace(s[0]) then ' ' else s[0];
      assert r == [x] + CollapseSpaces(t);
      ConsNoDoubleSpace(x, CollapseSpaces(t));
    }
  }

  /** A character put in front keeps a text free of adjacent whitespace
      unless both are whitespace. */
  lemma ConsNoDoubleSpace(x: char, c: string)
    requires NoDoubleSpace(c) && (IsSpace(x) && c != [] ==> !IsSpace(c[0]))
    ensures NoDoubleSpace([x] + c)
  {
    var r := [x] + c;
    forall i | 0 <= i < |r| - 1 ensures !(IsSpace(r[i]) && IsSpace(r[i + 1])) {
      if i > 0 {
        assert r[i] == c[i - 1] && r[i + 1] == c[i];
      }
    }
  }

  lemma {:induction false} CollapsePlainSpaces(s: string)
    ensures forall i :: 0 <= i < |CollapseSpaces(s)| && IsSpace(CollapseSpaces(s)[i]) ==> CollapseSpaces(s)[i] == ' '
    decreases |s|
  {
    if s != [] {
      var t := if IsSpace(s[0]) then TrimStart(s) else s[1..];
      CollapsePlainSpaces(t);
      var r := CollapseSpaces(s);
      assert r == [if IsSpace(s[0]) then ' ' else s[0]] + CollapseSpaces(t);
    }
  }

  /** Whatever holds of every character of `s` also holds of every
      character of its collapsed form, apart from the inserted spaces. */
  lemma {:induction false} CollapseChars(s: string, p: char -> bool)
    requires forall i :: 0 <= i < |s| ==> p(s[i])
    requires p(' ')
    ensures forall i :: 0 <= i < |CollapseSpaces(s)| ==> p(CollapseSpaces(s)[i])
    decreases |s|
  {
    if s != [] {
      if IsSpace(s[0]) {
        var t := TrimStart(s);
        assert forall i :: 0 <= i < |t| ==> t[i] == s[|s| - |t| + i];
        CollapseChars(t, p);
      } else {
        CollapseChars(s[1..], p);
      }
    }
  }

  /** A text whose only whitespace is single plain spaces is already
      collapsed. */
  lemma {:induction false} CollapseOfSingleSpaced(s: string)
    requires NoDoubleSpace(s)
    requires forall i :: 0 <= i < |s| && IsSpace(s[i]) ==> s[i] == ' '
    ensures CollapseSpaces(s) == s
    decreases |s|
  {
    if s != [] {
      CollapseOfSingleSpaced(s[1..]);
      if IsSpace(s[0]) {
        assert TrimStart(s) == s[1..] by {
          assert s[1..] == [] || !IsSpace(s[1..][0]);
        }
      }
    }
  }

  /** `cleanText`: collapse whitespace runs to one space, then trim. */
  function CleanText(s: string): (r: string)
    ensures IsTrimmed(r) && NoDoubleSpace(r)
    ensures forall i :: 0 <= i < |r| && IsSpace(r[i]) ==> r[i] == ' '
  {
    var c := CollapseSpaces(s);
    CollapseNoDoubleSpace(s);
    CollapsePlainSpaces(s);
    TrimIsSlice(c);
    var i: nat, j: nat :| i <= j <= |c| && Trim(c) == c[i..j];
    SliceKeepsNoDoubleSpace(c, i, j);
    Trim(c)
  }

  lemma SliceKeepsNoDoubleSpace(s: string, i: nat, j: nat)
    requires i <= j <= |s| && NoDoubleSpace(s)
    ensures NoDoubleSpace(s[i..j])
  {
    var t := s[i..j];
    forall k | 0 <= k < |t| - 1 ensures !(IsSpace(t[k]) && IsSpace(t[k + 1])) {
      assert t[k] == s[i + k] && t[k + 1] == s[i + k + 1];
    }
  }

  lemma TrimKeepsNoDoubleSpace(s: string)
    requires NoDoubleSpace(s)
    ensures NoDoubleSpace(Trim(s))
  {
    TrimIsSlice(s);
    var i: nat, j: nat :| i <= j <= |s| && Trim(s) == s[i..j];
    SliceKeepsNoDoubleSpace(s, i, j);
  }

  // ------------------------------------------------------------- scanning

  /** The first position at or after `i` whose character satisfies `stop`,
      or the end of `s`: where a greedy `[^...]*` started at `i` ends. */
  function RunUntil(s: string, i: nat, stop: char -> bool): (r: nat)
    requires i <= |s|
    ensures i <= r <= |s|
    ensures forall k :: i <= k < r ==> !stop(s[k])
    ensures r < |s| ==> stop(s[r])
    decreases |s| - i
  {
    if i < |s| && !stop(s[i]) then RunUntil(s, i + 1, stop) else i
  }

  /** A run with no stop character followed by one ends there. */
  lemma RunUntilAt(s: string, i: nat, e: nat, stop: char -> bool)
    requires i <= e < |s| && stop(s[e]) && forall k :: i <= k < e ==> !stop(s[k])
    ensures RunUntil(s, i, stop) == e
  {
  }

  /** A run with no stop character up to the end ends at the end. */
  lemma RunUntilEnd(s: string, i: nat, stop: char -> bool)
    requires i <= |s| && forall k :: i <= k < |s| ==> !stop(s[k])
    ensures RunUntil(s, i, stop) == |s|
    decreases |s| - i
  {
    if i < |s| {
      RunUntilEnd(s, i + 1, stop);
    }
  }

  /** `Number(d)` for a string of decimal digits. */
  function DecimalValue(d: string): nat
    decreases |d|
  {
    if d == [] then 0 else 10 * DecimalValue(d[..|d| - 1]) + (d[|d| - 1] as int - '0' as int) % 10
  }

  // ------------------------------------------------------------------- tags

  /** `replace(/<[^>]*>/g, " ")`: each `<` that has a `>` after it, up to the
      first such `>`, becomes one space. A `<` with no `>` after it is kept. */
  function RemoveTags(s: string): string
    decreases |s|
  {
    if s == [] then []
    else if s[0] == '<' && IndexOf(s, ">").Some? then " " + RemoveTags(s[IndexOf(s, ">").value + 1..])
    else [s[0]] + RemoveTags(s[1..])
  }

  /** No `<` is followed, anywhere later, by a `>`. */
  predicate NoTag(r: string) {
    forall i, j :: 0 <= i < j < |r| && r[i] == '<' ==> r[j] != '>'
  }

  /** Every character of the result is a space or a character of the input. */
  lemma {:induction false} RemoveTagsChars(s: string)
    ensures forall c :: c in RemoveTags(s) ==> c == ' ' || c in s
    decreases |s|
  {
    if s != [] {
      if s[0] == '<' && IndexOf(s, ">").Some? {
        var k := IndexOf(s, ">").value;
        RemoveTagsChars(s[k + 1..]);
        assert forall c :: c in s[k + 1..] ==> c in s;
      } else {
        RemoveTagsChars(s[1..]);
      }
    }
  }

  /** No complete tag survives. */
  lemma {:induction false} RemoveTagsNoTag(s: string)
    ensures NoTag(RemoveTags(s))
    decreases |s|
  {
    if s != [] {
      var r := RemoveTags(s);
      if s[0] == '<' && IndexOf(s, ">").Some? {
        RemoveTagsNoTag(s[IndexOf(s, ">").value + 1..]);
        assert r[0] == ' ' && r[1..] == RemoveTags(s[IndexOf(s, ">").value + 1..]);
      } else {
        RemoveTagsNoTag(s[1..]);
        assert r[1..] == RemoveTags(s[1..]);
        if s[0] == '<' {
          NoIndexNoChar(s, '>');
          RemoveTagsChars(s[1..]);
          assert forall c :: c in s[1..] ==> c in s;
          assert '>' !in r[1..];
        }
      }
    }
  }

  /** A character `IndexOf` does not find does not occur. */
  lemma NoIndexNoChar(s: string, c: char)
    requires IndexOf(s, [c]).None?
    ensures c !in s
  {
    forall k | 0 <= k < |s| ensures s[k] != c {
      assert !OccursAt(s, [c], k);
      assert s[k..k + 1] == [s[k]];
    }
  }

  /** Text without `<` is left as it is. */
  lemma {:induction false} RemoveTagsPlain(s: string)
    requires '<' !in s
    ensures RemoveTags(s) == s
    decreases |s|
  {
    if s != [] {
      RemoveTagsPlain(s[1..]);
    }
  }

  /** Collapsing whitespace cannot create a tag. */
  lemma {:induction false} CollapseKeepsNoTag(s: string)
    requires NoTag(s)
    ensures NoTag(CollapseSpaces(s))
    decreases |s|
  {
    if s != [] {
      var t := if IsSpace(s[0]) then TrimStart(s) else s[1..];
      NoTagSuffix(s, |s| - |t|);
      CollapseKeepsNoTag(t);
      if s[0] == '<' {
        assert forall i :: 0 <= i < |t| ==> t[i] != '>' by {
          forall i | 0 <= i < |t| ensures t[i] != '>' {
            assert t[i] == s[1 + i];
          }
        }
        CollapseChars(t, ch => ch != '>');
      }
      NoTagCons(if IsSpace(s[0]) then ' ' else s[0], CollapseSpaces(t));
    }
  }

  lemma NoTagSuffix(s: string, k: nat)
    requires k <= |s| && NoTag(s)
    ensures NoTag(s[k..])
  {
    var t := s[k..];
    forall i, j | 0 <= i < j < |t| && t[i] == '<' ensures t[j] != '>' {
      assert t[i] == s[k + i] && t[j] == s[k + j];
    }
  }

  lemma NoTagCons(x: char, c: string)
    requires NoTag(c)
    requires x == '<' ==> forall i :: 0 <= i < |c| ==> c[i] != '>'
    ensures NoTag([x] + c)
  {
    var r := [x] + c;
    forall i, j | 0 <= i < j < |r| && r[i] == '<' ensures r[j] != '>' {
      assert r[j] == c[j - 1];
      if i > 0 {
        assert r[i] == c[i - 1];
      }
    }
  }

  /** Trimming cannot create a tag. */
  lemma TrimKeepsNoTag(s: string)
    requires NoTag(s)
    ensures NoTag(Trim(s))
  {
    TrimIsSlice(s);
    var i: nat, j: nat :| i <= j <= |s| && Trim(s) == s[i..j];
    var r := s[i..j];
    forall a, b | 0 <= a < b < |r| && r[a] == '<' ensures r[b] != '>' {
      assert r[a] == s[i + a] && r[b] == s[i + b];
    }
  }

  lemma CleanTextKeepsNoTag(s: string)
    requires NoTag(s)
    ensures NoTag(CleanText(s))
  {
    CollapseKeepsNoTag(s);
    TrimKeepsNoTag(CollapseSpaces(s));
  }

  /** Trimming a text that does not start with whitespace only shortens its
      end: the result is a prefix. */
  lemma {:induction false} TrimOfLeadTrimmed(s: string)
    requires s == [] || !IsSpace(s[0])
    ensures Trim(s) == s[..|Trim(s)|]
    decreases |s|
  {
    if s != [] && IsSpace(s[|s| - 1]) {
      var p := s[..|s| - 1];
      assert p == [] || p[0] == s[0];
      TrimOfLeadTrimmed(p);
    }
  }

  /** Cleaning a cleaned text changes nothing. */
  lemma CleanTextIdempotent(s: string)
    ensures CleanText(CleanText(s)) == CleanText(s)
  {
    var c := CleanText(s);
    CollapseOfSingleSpaced(c);
    TrimOfTrimmed(c);
  }

  // ------------------------------------------------ case-insensitive search

  /** `pat` at `i`, compared as an `/i` regular expression does. */
  predicate OccursAtCI(s: string, pat: string, i: nat) {
    i + |pat| <= |s| && forall k :: 0 <= k < |pat| ==> LowerChar(s[i + k]) == pat[k]
  }

  predicate ContainsCI(s: string, pat: string) {
    exists i: nat :: i <= |s| && OccursAtCI(s, pat, i)
  }

  /** The first occurrence of `pat`, ignoring case, at or after `from`. */
  function FindCI(s: string, pat: string, from: nat): (r: Option<nat>)
    ensures r.Some? ==> from <= r.value && OccursAtCI(s, pat, r.value)
    ensures r.Some? ==> forall j :: from <= j < r.value ==> !OccursAtCI(s, pat, j)
    ensures r.None? ==> forall j :: from <= j ==> !OccursAtCI(s, pat, j)
    decreases |s| - from
  {
    if from + |pat| > |s| then None
    else if OccursAtCI(s, pat, from) then Some(from)
    else FindCI(s, pat, from + 1)
  }

  /** `pat` is already in lower case, so it matches itself. */
  predicate Lowered(pat: string) {
    forall k :: 0 <= k < |pat| ==> LowerChar(pat[k]) == pat[k]
  }

  /** A lower-case pattern placed between two texts occurs there. */
  lemma OccursAtCIJoin(a: string, pat: string, b: string)
    requires Lowered(pat)
    ensures OccursAtCI(a + pat + b, pat, |a|)
  {
    var h := a + pat + b;
    forall k | 0 <= k < |pat| ensures LowerChar(h[|a| + k]) == pat[k] {
      assert h[|a| + k] == pat[k];
    }
  }

  /** An occurrence that lies inside the middle piece of a text is one of
      that piece. */
  lemma OccursAtCIInner(pre: string, y: string, post: string, pat: string, p: nat)
    requires p + |pat| <= |y|
    ensures OccursAtCI(pre + y + post, pat, |pre| + p) <==> OccursAtCI(y, pat, p)
  {
    var h := pre + y + post;
    forall j | |pre| + p <= j < |pre| + p + |pat| ensures h[j] == y[j - |pre|] {
    }
  }

  /** A pattern that starts with a character absent at `i` does not occur
      at `i`. */
  lemma NotAtCI(s: string, pat: string, i: nat)
    requires i < |s| && pat != [] && LowerChar(s[i]) != pat[0]
    ensures !OccursAtCI(s, pat, i)
  {
  }

  /** `q` is the first occurrence of `pat`, ignoring case, at or after
      `from`. */
  predicate FirstAtCI(s: string, pat: string, from: nat, q: nat) {
    from <= q && OccursAtCI(s, pat, q) && forall j :: from <= j < q ==> !OccursAtCI(s, pat, j)
  }

  /** The first occurrence found is the one with none before it. */
  lemma {:induction false} FindCIAt(s: string, pat: string, from: nat, q: nat)
    requires FirstAtCI(s, pat, from, q)
    ensures FindCI(s, pat, from) == Some(q)
    decreases q - from
  {
    if from < q {
      FindCIAt(s, pat, from + 1, q);
    }
  }

  // ------------------------------------------------ regular-expression loops

  /** The `re.exec` loop of a global regular expression: every match from
      `from` on, left to right, each search resuming where the previous
      match ended. `m(h, i)` is the match starting at `i`, if any, with the
      position just past it; a match that does not advance ends the loop. */
  function Matches<T>(h: string, from: nat, m: (string, nat) -> Option<(T, nat)>): seq<T>
    decreases |h| - from
  {
    if from >= |h| then []
    else match m(h, from)
      case Some((v, e)) => if e <= from then [] else [v] + Matches(h, e, m)
      case None => Matches(h, from + 1, m)
  }

  /** The loop itself. */
  method ExecAll<T>(h: string, m: (string, nat) -> Option<(T, nat)>) returns (out: seq<T>)
    ensures out == Matches(h, 0, m)
  {
    out := [];
    var pos := 0;
    while pos < |h|
      invariant out + Matches(h, pos, m) == Matches(h, 0, m)
      decreases |h| - pos
    {
      var r := m(h, pos);
      if r.Some? {
        if r.value.1 <= pos {
          return;
        }
        out := out + [r.value.0];
        pos := r.value.1;
      } else {
        pos := pos + 1;
      }
    }
  }
}
