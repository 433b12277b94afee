/** The weekly programme grid (src/lib/programsSchedule.ts): published
    occurrences are grouped by weekday into seven lists, each entry carrying
    the normalised start time, the cover URL, the title and the description. */
module Schedule {
  import opened Common
  import opened Text
  import Directus

  /** The seven keys of the grid, `DAY_KEYS`. */
  datatype Day = Mon | Tue | Wed | Thu | Fri | Sat | Sun

  /** The position of a day in `DAY_KEYS`. */
  function DayIndex(d: Day): (i: nat)
    ensures i < 7
  {
    match d
    case Mon => 0
    case Tue => 1
    case Wed => 2
    case Thu => 3
    case Fri => 4
    case Sat => 5
    case Sun => 6
  }

  function DayAt(i: nat): (d: Day)
    requires i < 7
    ensures DayIndex(d) == i
  {
    [Mon, Tue, Wed, Thu, Fri, Sat, Sun][i]
  }

  lemma DayAtIndex(d: Day)
    ensures DayAt(DayIndex(d)) == d
  {
  }
  const Untitled: string := "Untitled program"

  /** The program record joined to an occurrence (only the fields read). */
  datatype Program = Program(title: JsValue, description: JsValue, cover: JsValue)

  /** One occurrence row; `program` is `None` when the join is null. */
  datatype Occurrence = Occurrence(dayOfWeek: JsValue, startTime: JsValue, program: Option<Program>)

  datatype Entry = Entry(time: string, img: string, title: string, desc: string)

  /** The key of a day in the grid. */
  function DayKey(d: Day): (k: string)
    ensures |k| == 3
    ensures forall i :: 0 <= i < 3 ==> 'a' <= k[i] <= 'z'
  {
    match d
    case Mon => "mon"
    case Tue => "tue"
    case Wed => "wed"
    case Thu => "thu"
    case Fri => "fri"
    case Sat => "sat"
    case Sun => "sun"
  }

  /** The day whose key is `k`, if any: `DAY_KEYS.includes(k)`. */
  function ParseDay(k: string): (r: Option<Day>)
    ensures r.Some? ==> DayKey(r.value) == k
  {
    if k == "mon" then Some(Mon)
    else if k == "tue" then Some(Tue)
    else if k == "wed" then Some(Wed)
    else if k == "thu" then Some(Thu)
    else if k == "fri" then Some(Fri)
    else if k == "sat" then Some(Sat)
    else if k == "sun" then Some(Sun)
    else None
  }

  /** Every key parses back to its day. */
  lemma ParseDayKey(d: Day)
    ensures ParseDay(DayKey(d)) == Some(d)
  {
  }

  /** The weekday named by `s` once lower-cased and trimmed, found one end at
      a time: drop a whitespace character from either end, then look the
      lower-cased rest up. */
  function MatchDay(s: string): Option<Day>
    decreases |s|
  {
    if s != [] && IsSpace(s[0]) then MatchDay(s[1..])
    else if s != [] && IsSpace(s[|s| - 1]) then MatchDay(s[..|s| - 1])
    else ParseDayFolded(s)
  }

  /** `ParseDay(Lower(k))`, one character at a time. */
  function ParseDayFolded(k: string): Option<Day> {
    if |k| != 3 then None
    else
      var a, b, c := LowerChar(k[0]), LowerChar(k[1]), LowerChar(k[2]);
      if a == 'm' && b == 'o' && c == 'n' then Some(Mon)
      else if a == 't' && b == 'u' && c == 'e' then Some(Tue)
      else if a == 'w' && b == 'e' && c == 'd' then Some(Wed)
      else if a == 't' && b == 'h' && c == 'u' then Some(Thu)
      else if a == 'f' && b == 'r' && c == 'i' then Some(Fri)
      else if a == 's' && b == 'a' && c == 't' then Some(Sat)
      else if a == 's' && b == 'u' && c == 'n' then Some(Sun)
      else None
  }

  lemma ParseDayFoldedIsLower(k: string)
    ensures ParseDayFolded(k) == ParseDay(Lower(k))
  {
    if |k| == 3 {
      var l := Lower(k);
      assert l == [LowerChar(k[0]), LowerChar(k[1]), LowerChar(k[2])];
    }
  }

  /** `normalizeDay`: the weekday key, if any, of the lower-cased, trimmed
      text; `None` stands for the empty string the source returns otherwise. */
  function NormalizeDay(v: JsValue): Option<Day> {
    MatchDay(StrNullish(v))
  }

  /** The matcher is exactly `DAY_KEYS.includes(s.toLowerCase().trim())`. */
  lemma {:induction false} MatchDayIsTrimLower(s: string)
    ensures MatchDay(s) == ParseDay(Trim(Lower(s)))
    decreases |s|
  {
    if s != [] && IsSpace(s[0]) {
      MatchDayIsTrimLower(s[1..]);
      TrimLowerDropFirst(s);
    } else if s != [] && IsSpace(s[|s| - 1]) {
      MatchDayIsTrimLower(s[..|s| - 1]);
      TrimLowerDropLast(s);
    } else {
      ParseDayFoldedIsLower(s);
      TrimLowerUnpadded(s);
    }
  }

  lemma TrimLowerDropFirst(s: string)
    requires s != [] && IsSpace(s[0])
    ensures Trim(Lower(s)) == Trim(Lower(s[1..]))
  {
    var l := Lower(s);
    CaseKeepsSpace(s[0]);
    LowerSlice(s, 1, |s|);
    assert s[1..|s|] == s[1..] && l[1..|l|] == l[1..];
    TrimDropFirst(l);
  }

  lemma TrimLowerDropLast(s: string)
    requires s != [] && IsSpace(s[|s| - 1])
    ensures Trim(Lower(s)) == Trim(Lower(s[..|s| - 1]))
  {
    CaseKeepsSpace(s[|s| - 1]);
    LowerSlice(s, 0, |s| - 1);
    assert s[0..|s| - 1] == s[..|s| - 1];
    TrimDropLast(Lower(s));
  }

  lemma TrimLowerUnpadded(s: string)
    requires s != [] ==> !IsSpace(s[0]) && !IsSpace(s[|s| - 1])
    ensures Trim(Lower(s)) == Lower(s)
  {
    if s != [] {
      CaseKeepsSpace(s[0]);
      CaseKeepsSpace(s[|s| - 1]);
    }
    TrimOfTrimmed(Lower(s));
  }

  /** `normalizeDay` as the source states it. */
  lemma NormalizeDayIsTrimLower(v: JsValue)
    ensures NormalizeDay(v) == ParseDay(Trim(Lower(StrNullish(v))))
    ensures NormalizeDay(v).Some? ==> DayKey(NormalizeDay(v).value) == Trim(Lower(StrNullish(v)))
  {
    MatchDayIsTrimLower(StrNullish(v));
  }

  predicate Digit2(t: string, i: nat)
    requires i + 2 <= |t|
  {
    IsDigit(t[i]) && IsDigit(t[i + 1])
  }

  /** `/^(\d{2}):(\d{2})(?::\d{2})?$/` */
  predicate ClockLike(t: string) {
    (|t| == 5 || (|t| == 8 && t[5] == ':' && Digit2(t, 6))) && Digit2(t, 0) && t[2] == ':' && Digit2(t, 3)
  }

  /** The time text after trimming: "HH:MM" or "HH:MM:SS" becomes "HH:MM",
      anything else is kept. */
  function ClockText(t: string): (r: string)
    ensures t == [] <==> r == []
    ensures ClockLike(t) ==> r == t[..5]
    ensures !ClockLike(t) ==> r == t
  {
    if t == [] then ""
    else if ClockLike(t) then t[..2] + ":" + t[3..5]
    else t
  }

  /** `normalizeTimeFromDirectus`: the trimmed text through `ClockText`. */
  function NormalizeTime(v: JsValue): string {
    ClockText(Trim(StrNullish(v)))
  }

  /** Lower-casing leaves whitespace padding in place. */
  lemma LowerPadded(pre: string, w: string, post: string)
    requires AllSpace(pre) && AllSpace(post)
    ensures Lower(pre + w + post) == pre + Lower(w) + post
  {
    LowerAppend(pre, w);
    LowerAppend(pre + w, post);
    forall i | 0 <= i < |pre| ensures Lower(pre)[i] == pre[i] {
      CaseKeepsSpace(pre[i]);
    }
    forall i | 0 <= i < |post| ensures Lower(post)[i] == post[i] {
      CaseKeepsSpace(post[i]);
    }
  }

  /** A day key is found again in any letter case and with surrounding
      whitespace. */
  lemma NormalizeDayOfKey(d: Day, pre: string, post: string)
    requires AllSpace(pre) && AllSpace(post)
    ensures NormalizeDay(Str(pre + Upper(DayKey(d)) + post)) == Some(d)
  {
    var k := DayKey(d);
    var u := Upper(k);
    assert Lower(u) == k;
    LowerPadded(pre, u, post);
    assert IsTrimmed(k);
    TrimPadded(pre, k, post);
    ParseDayKey(d);
    NormalizeDayIsTrimLower(Str(pre + u + post));
  }

  /** A grid key normalises to its own day: normalising is idempotent. */
  lemma NormalizeDayKey(d: Day)
    ensures NormalizeDay(Str(DayKey(d))) == Some(d)
  {
    var k := DayKey(d);
    assert StrNullish(Str(k)) == k;
    assert Lower(k) == k;
    assert !IsSpace(k[0]) && !IsSpace(k[2]);
    TrimOfTrimmed(k);
    ParseDayKey(d);
    NormalizeDayIsTrimLower(Str(k));
  }

  /** Normalising a normalised time changes nothing. */
  lemma NormalizeTimeIdempotent(v: JsValue)
    ensures NormalizeTime(Str(NormalizeTime(v))) == NormalizeTime(v)
  {
    var t := Trim(StrNullish(v));
    var r := ClockText(t);
    assert StrNullish(Str(r)) == r;
    ClockTextTrimmed(t);
    TrimOfTrimmed(r);
    ClockTextIdempotent(t);
  }

  lemma ClockTextTrimmed(t: string)
    requires IsTrimmed(t)
    ensures IsTrimmed(ClockText(t))
  {
    if ClockLike(t) {
      var r := ClockText(t);
      assert r[0] == t[0] && r[4] == t[4];
    }
  }

  lemma ClockTextIdempotent(t: string)
    ensures ClockText(ClockText(t)) == ClockText(t)
  {
    if ClockLike(t) {
      var r := ClockText(t);
      assert ClockLike(r);
      assert r[..5] == r;
    }
  }

  /** One occurrence as a grid entry, with the asset base URL `base`. */
  function EntryOf(base: string, row: Occurrence): (e: Entry)
    ensures e.time != [] && e.title != []
    ensures NormalizeTime(row.startTime) != [] ==> e.time == NormalizeTime(row.startTime)
    ensures NormalizeTime(row.startTime) == [] ==> e.time == "00:00"
    ensures row.program.None? ==> e == Entry(e.time, "", Untitled, "")
  {
    var time := var t := NormalizeTime(row.startTime); if t != [] then t else "00:00";
    var title := if row.program.None? then "" else StrNullish(row.program.value.title);
    var desc := if row.program.None? then "" else StrNullish(row.program.value.description);
    var coverId := if row.program.None? then "" else StrNullish(row.program.value.cover);
    var img := if coverId != [] then Directus.DirectusAsset(base, Some(coverId), None) else "";
    Entry(time, img, if title != [] then title else Untitled, desc)
  }

  /** A row with its weekday (if any) and its grid entry. */
  type Labelled = (Option<Day>, Entry)

  function Labels(base: string, rows: seq<Occurrence>): (ls: seq<Labelled>)
    ensures |ls| == |rows|
    ensures forall i :: 0 <= i < |rows| ==> ls[i] == (NormalizeDay(rows[i].dayOfWeek), EntryOf(base, rows[i]))
  {
    seq(|rows|, i requires 0 <= i < |rows| => (NormalizeDay(rows[i].dayOfWeek), EntryOf(base, rows[i])))
  }

  /** The entries labelled with weekday `d`, in order. */
  function Group(ls: seq<Labelled>, d: Day): (es: seq<Entry>)
    ensures |es| <= |ls|
    decreases |ls|
  {
    if ls == [] then []
    else Group(ls[..|ls| - 1], d) + (if ls[|ls| - 1].0 == Some(d) then [ls[|ls| - 1].1] else [])
  }

  /** The seven lists, in `DAY_KEYS` order. */
  function GroupAll(ls: seq<Labelled>): (s: seq<seq<Entry>>)
    ensures |s| == 7
    ensures forall i :: 0 <= i < 7 ==> s[i] == Group(ls, DayAt(i))
  {
    seq(7, i requires 0 <= i < 7 => Group(ls, DayAt(i)))
  }

  /** The grid: one list per weekday, each holding that day's entries in
      row order; `s[DayIndex(d)]` is the list under the key `DayKey(d)`. */
  function ScheduleOf(base: string, rows: seq<Occurrence>): (s: seq<seq<Entry>>)
    ensures |s| == 7
  {
    GroupAll(Labels(base, rows))
  }

  /** Entries with a weekday. */
  function CountValid(ls: seq<Labelled>): (n: nat)
    ensures n <= |ls|
    decreases |ls|
  {
    if ls == [] then 0
    else CountValid(ls[..|ls| - 1]) + (if ls[|ls| - 1].0.Some? then 1 else 0)
  }

  /** Grouping splits over concatenation, so each day keeps the input order. */
  lemma {:induction false} GroupAppend(l1: seq<Labelled>, l2: seq<Labelled>, d: Day)
    ensures Group(l1 + l2, d) == Group(l1, d) + Group(l2, d)
    decreases |l2|
  {
    if l2 == [] {
      assert l1 + l2 == l1;
    } else {
      assert (l1 + l2)[..|l1 + l2| - 1] == l1 + l2[..|l2| - 1];
      assert (l1 + l2)[|l1 + l2| - 1] == l2[|l2| - 1];
      GroupAppend(l1, l2[..|l2| - 1], d);
    }
  }

  /** A row lands in the list of its own weekday, once, and in no other. */
  lemma GroupSingle(x: Labelled, d: Day)
    ensures Group([x], d) == if x.0 == Some(d) then [x.1] else []
  {
    assert [x][..0] == [];
  }

  /** Rows split into two batches give each day the first batch's entries
      followed by the second batch's. */
  lemma ScheduleAppend(base: string, r1: seq<Occurrence>, r2: seq<Occurrence>, d: Day)
    ensures var i := DayIndex(d);
      ScheduleOf(base, r1 + r2)[i] == ScheduleOf(base, r1)[i] + ScheduleOf(base, r2)[i]
  {
    DayAtIndex(d);
    LabelsAppend(base, r1, r2);
    GroupAppend(Labels(base, r1), Labels(base, r2), d);
  }

  lemma LabelsAppend(base: string, r1: seq<Occurrence>, r2: seq<Occurrence>)
    ensures Labels(base, r1 + r2) == Labels(base, r1) + Labels(base, r2)
  {
    var l := Labels(base, r1 + r2);
    var l1 := Labels(base, r1);
    var l2 := Labels(base, r2);
    forall i | 0 <= i < |l| ensures l[i] == (l1 + l2)[i] {
      if i < |r1| {
        assert (r1 + r2)[i] == r1[i];
      } else {
        assert (r1 + r2)[i] == r2[i - |r1|];
      }
    }
  }

  /** A further row is appended to the list of its weekday, and to no other
      list; a row whose weekday is not recognised is dropped. */
  lemma ScheduleSnoc(base: string, rows: seq<Occurrence>, row: Occurrence, d: Day)
    ensures var i := DayIndex(d);
      ScheduleOf(base, rows + [row])[i] ==
      ScheduleOf(base, rows)[i] + (if NormalizeDay(row.dayOfWeek) == Some(d) then [EntryOf(base, row)] else [])
  {
    DayAtIndex(d);
    ScheduleAppend(base, rows, [row], d);
    var l := Labels(base, [row]);
    assert l == [l[0]];
    GroupSingle(l[0], d);
  }

  function TotalEntries(s: seq<seq<Entry>>): nat
    requires |s| == 7
  {
    |s[0]| + |s[1]| + |s[2]| + |s[3]| + |s[4]| + |s[5]| + |s[6]|
  }

  /** The grid holds one entry per row with a valid weekday. */
  lemma {:induction false} GroupCount(ls: seq<Labelled>)
    ensures TotalEntries(GroupAll(ls)) == CountValid(ls)
    decreases |ls|
  {
    if ls != [] {
      var n := |ls| - 1;
      GroupCount(ls[..n]);
      GroupAllSnoc(ls, n);
      assert ls[..n + 1] == ls;
      PushCount(GroupAll(ls[..n]), ls[n]);
    }
  }

  lemma PushCount(s: seq<seq<Entry>>, x: Labelled)
    requires |s| == 7
    ensures TotalEntries(Push(s, x)) == TotalEntries(s) + (if x.0.Some? then 1 else 0)
  {
    match x.0
    case None =>
    case Some(d) =>
      match d
      case Mon => case Tue => case Wed => case Thu => case Fri => case Sat => case Sun =>
  }

  lemma ScheduleCount(base: string, rows: seq<Occurrence>)
    ensures TotalEntries(ScheduleOf(base, rows)) == CountValid(Labels(base, rows))
    ensures CountValid(Labels(base, rows)) <= |rows|
  {
    GroupCount(Labels(base, rows));
  }

  /** One more labelled row extends its weekday's list and no other. */
  lemma GroupStep(ls: seq<Labelled>, i: nat, k: nat)
    requires i < |ls| && k < 7
    ensures GroupAll(ls[..i + 1])[k] == GroupAll(ls[..i])[k] + (if ls[i].0 == Some(DayAt(k)) then [ls[i].1] else [])
  {
    assert ls[..i + 1][..i] == ls[..i];
    assert ls[..i + 1][i] == ls[i];
  }

  /** The grid with one more labelled entry: appended to its weekday's
      list, or dropped when it has none. */
  function Push(s: seq<seq<Entry>>, x: Labelled): (t: seq<seq<Entry>>)
    requires |s| == 7
    ensures |t| == 7
  {
    match x.0
    case None => s
    case Some(d) => s[DayIndex(d) := s[DayIndex(d)] + [x.1]]
  }

  lemma GroupAllSnoc(ls: seq<Labelled>, i: nat)
    requires i < |ls|
    ensures GroupAll(ls[..i + 1]) == Push(GroupAll(ls[..i]), ls[i])
  {
    var s, t := GroupAll(ls[..i + 1]), Push(GroupAll(ls[..i]), ls[i]);
    forall k | 0 <= k < 7 ensures s[k] == t[k] {
      GroupStep(ls, i, k);
      if ls[i].0.Some? {
        DayAtIndex(ls[i].0.value);
      }
    }
  }

  /** `buildScheduleFromOccurrences`: fill the seven lists row by row. */
  method BuildSchedule(base: string, rows: seq<Occurrence>) returns (schedule: seq<seq<Entry>>)
    ensures schedule == ScheduleOf(base, rows)
  {
    ghost var ls := Labels(base, rows);
    schedule := [[], [], [], [], [], [], []];
    assert schedule == GroupAll(ls[..0]);
    var i := 0;
    while i < |rows|
      invariant 0 <= i <= |rows|
      invariant schedule == GroupAll(ls[..i])
    {
      var row := rows[i];
      var day := NormalizeDay(row.dayOfWeek);
      var e := EntryOf(base, row);
      assert ls[i] == (day, e);
      GroupAllSnoc(ls, i);
      if day.Some? {
        var k := DayIndex(day.value);
        schedule := schedule[k := schedule[k] + [e]];
      }
      i := i + 1;
    }
    assert ls[..i] == ls;
  }
}
