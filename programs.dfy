/** Loading the weekly schedule into the CMS: scripts/seed-programs-from-static.mjs
    (from a static table) and public/scripts/import-programs-from-site.mjs
    (from scraped cards) share `slugify`, `upsertProgram`, the occurrence
    check and the shape of `main`: for each day, for each item with a title,
    upload the cover, upsert the program by slug, and create the weekly
    occurrence when it is missing. */
module ProgramImport {
  import opened Common
  import opened Text
  import opened Slug

  // ----------------------------------------------------------- start times

  /** How many digits `^(\d{1,2})` takes: two when there are two. */
  function HourLen(s: string): (n: nat)
    ensures n <= 2 && n <= |s|
    ensures forall k :: 0 <= k < n ==> IsDigit(s[k])
    ensures n < 2 && n < |s| ==> !IsDigit(s[n])
  {
    if |s| >= 2 && IsDigit(s[0]) && IsDigit(s[1]) then 2
    else if |s| >= 1 && IsDigit(s[0]) then 1
    else 0
  }

  predicate IsTwoDigits(m: string) {
    |m| == 2 && IsDigit(m[0]) && IsDigit(m[1])
  }

  /** `h.padStart(2, "0")` for a one- or two-digit hour. */
  function PadHour(h: string): (r: string)
    requires 1 <= |h| <= 2 && (forall k :: 0 <= k < |h| ==> IsDigit(h[k]))
    ensures |r| == 2 && IsDigit(r[0]) && IsDigit(r[1])
    ensures |h| == 1 ==> r == ['0', h[0]]
    ensures |h| == 2 ==> r == h
  {
    if |h| == 1 then ['0', h[0]] else h
  }

  /** `s.match(/^(\d{1,2})\s*h\s*(\d{2})$/i)`: hour and minutes. The hour
      group is read greedily; giving a digit back could never help, since a
      digit can neither be skipped by `\s*` nor match `h`. */
  function MatchH(s: string): (r: Option<(string, string)>)
    ensures r.Some? ==> 1 <= |r.value.0| <= 2 && (forall k :: 0 <= k < |r.value.0| ==> IsDigit(r.value.0[k]))
    ensures r.Some? ==> IsTwoDigits(r.value.1)
  {
    var n := HourLen(s);
    if n == 0 then None
    else
      var i := SkipSpaces(s, n);
      if i == |s| || (s[i] != 'h' && s[i] != 'H') then None
      else
        var j := SkipSpaces(s, i + 1);
        if j + 2 == |s| && IsDigit(s[j]) && IsDigit(s[j + 1]) then Some((s[..n], s[j..])) else None
  }

  /** The text the first pattern describes, with the hour `s[..n]`, the letter
      `h` or `H` at `i` and the minutes at the end. */
  predicate HForm(s: string, n: nat, i: nat) {
    1 <= n <= 2 && n <= i && i + 3 <= |s| &&
    (forall k :: 0 <= k < n ==> IsDigit(s[k])) &&
    (forall k :: n <= k < i ==> IsSpace(s[k])) && (s[i] == 'h' || s[i] == 'H') &&
    (forall k :: i < k < |s| - 2 ==> IsSpace(s[k])) && IsTwoDigits(s[|s| - 2..])
  }

  lemma SkipSpacesTo(s: string, i: nat, j: nat)
    requires i <= j < |s| && !IsSpace(s[j])
    requires forall k :: i <= k < j ==> IsSpace(s[k])
    ensures SkipSpaces(s, i) == j
  {
  }

  lemma HourLenOfHForm(s: string, n: nat, i: nat)
    requires HForm(s, n, i)
    ensures HourLen(s) == n
  {
    assert n < i ==> IsSpace(s[n]);
  }

  /** Every text of that form matches, with its own hour and minutes. */
  lemma MatchHComplete(s: string, n: nat, i: nat)
    requires HForm(s, n, i)
    ensures MatchH(s) == Some((s[..n], s[|s| - 2..]))
  {
    HourLenOfHForm(s, n, i);
    SkipSpacesTo(s, n, i);
    SkipSpacesTo(s, i + 1, |s| - 2);
  }

  /** Every match is a text of that form. */
  lemma MatchHSound(s: string)
    requires MatchH(s).Some?
    ensures exists n: nat, i: nat :: HForm(s, n, i) && MatchH(s).value == (s[..n], s[|s| - 2..])
  {
    var n := HourLen(s);
    var i := SkipSpaces(s, n);
    assert HForm(s, n, i);
  }

  /** `"HH:MM:SS"` with digits. */
  predicate IsClock(r: string) {
    |r| == 8 && r[2] == ':' && r[5] == ':' &&
    IsDigit(r[0]) && IsDigit(r[1]) && IsDigit(r[3]) && IsDigit(r[4]) && IsDigit(r[6]) && IsDigit(r[7])
  }

  /** `` `${h.padStart(2, "0")}:${m}:${sec}` ``. */
  function ClockOf(h: string, m: string, sec: string): (r: string)
    requires 1 <= |h| <= 2 && (forall k :: 0 <= k < |h| ==> IsDigit(h[k]))
    requires IsTwoDigits(m) && IsTwoDigits(sec)
    ensures IsClock(r)
    ensures r[..2] == PadHour(h) && r[3..5] == m && r[6..] == sec
  {
    var p := PadHour(h);
    [p[0], p[1], ':', m[0], m[1], ':', sec[0], sec[1]]
  }

  /** `toStartTime` of scripts/seed-programs-from-static.mjs. */
  function SeedClock(s: string): (r: string)
    ensures IsClock(r) && r[6..] == "00"
  {
    match MatchH(s)
    case None => "00:00:00"
    case Some((h, m)) => ClockOf(h, m, "00")
  }

  function SeedStartTime(v: JsValue): string {
    SeedClock(Field(v))
  }

  /** `"9h30"`, `"21 H 05"` and the like give the zero-padded hour, the
      minutes and `:00`; there is no range check on either number. */
  lemma SeedClockOfHForm(s: string, n: nat, i: nat)
    requires HForm(s, n, i)
    ensures SeedClock(s) == ClockOf(s[..n], s[|s| - 2..], "00")
  {
    MatchHComplete(s, n, i);
  }

  /** Any text not of that form gives midnight. */
  lemma SeedClockOtherwise(s: string)
    requires forall n: nat, i: nat :: !HForm(s, n, i)
    ensures SeedClock(s) == "00:00:00"
  {
    if MatchH(s).Some? {
      MatchHSound(s);
    }
  }

  /** `(?::\s*(\d{2}))?` at position `j`, just after the minutes. */
  function SecondsOf(s: string, j: nat): (r: Option<string>)
    requires j <= |s|
    ensures r.Some? ==> IsTwoDigits(r.value)
  {
    if j < |s| && s[j] == ':' then
      var k := SkipSpaces(s, j + 1);
      if k + 2 <= |s| && IsDigit(s[k]) && IsDigit(s[k + 1]) then Some(s[k..k + 2]) else None
    else None
  }

  /** `s.match(/^(\d{1,2})\s*:\s*(\d{2})(?::\s*(\d{2}))?/)`: hour, minutes
      and optional seconds; the end of the text is not anchored. */
  function MatchColon(s: string): (r: Option<(string, string, Option<string>)>)
    ensures r.Some? ==> 1 <= |r.value.0| <= 2 && (forall k :: 0 <= k < |r.value.0| ==> IsDigit(r.value.0[k]))
    ensures r.Some? ==> IsTwoDigits(r.value.1)
    ensures r.Some? && r.value.2.Some? ==> IsTwoDigits(r.value.2.value)
  {
    var n := HourLen(s);
    if n == 0 then None
    else
      var i := SkipSpaces(s, n);
      if i == |s| || s[i] != ':' then None
      else
        var j := SkipSpaces(s, i + 1);
        if j + 2 <= |s| && IsDigit(s[j]) && IsDigit(s[j + 1]) then Some((s[..n], s[j..j + 2], SecondsOf(s, j + 2)))
        else None
  }

  /** `toStartTime` of public/scripts/import-programs-from-site.mjs: the
      `h` form first, then the colon form with seconds defaulting to `00`. */
  function ImportClock(s: string): (r: string)
    ensures IsClock(r)
    ensures MatchH(s).Some? ==> r == SeedClock(s)
  {
    if MatchH(s).Some? then SeedClock(s) else ColonClock(s)
  }

  /** The colon form alone, seconds defaulting to `00`. */
  function ColonClock(s: string): (r: string)
    ensures IsClock(r)
  {
    match MatchColon(s)
    case None => "00:00:00"
    case Some((h, m, sec)) => ClockOf(h, m, if sec.Some? then sec.value else "00")
  }

  function ImportStartTime(v: JsValue): string {
    ImportClock(Field(v))
  }

  lemma HourLenOf(h: string, t: string)
    requires 1 <= |h| <= 2 && (forall k :: 0 <= k < |h| ==> IsDigit(h[k]))
    requires t != [] && !IsDigit(t[0])
    ensures HourLen(h + t) == |h| && (h + t)[..|h|] == h
  {
    var s := h + t;
    assert |h| == 1 ==> s[1] == t[0];
  }

  /** `"18:00"` and `"18:00 (CET)"`: hour and minutes, then anything that
      does not start with `:`, give seconds `00`. */
  lemma ImportClockNoSeconds(h: string, m: string, t: string)
    requires 1 <= |h| <= 2 && (forall k :: 0 <= k < |h| ==> IsDigit(h[k]))
    requires IsTwoDigits(m) && (t == [] || t[0] != ':')
    ensures ImportClock(h + ":" + m + t) == ClockOf(h, m, "00")
  {
    var s := h + ":" + m + t;
    var n := |h|;
    assert s == h + (":" + m + t);
    HourLenOf(h, ":" + m + t);
    assert s[n] == ':' && s[n + 1] == m[0] && s[n + 2] == m[1];
    assert s[n + 1..n + 3] == m;
    SkipSpacesTo(s, n, n);
    SkipSpacesTo(s, n + 1, n + 1);
    assert t != [] ==> s[n + 3] == t[0];
  }

  /** `"18:00:00"`: the seconds are kept. */
  lemma ImportClockSeconds(h: string, m: string, sec: string, t: string)
    requires 1 <= |h| <= 2 && (forall k :: 0 <= k < |h| ==> IsDigit(h[k]))
    requires IsTwoDigits(m) && IsTwoDigits(sec)
    ensures ImportClock(h + ":" + m + ":" + sec + t) == ClockOf(h, m, sec)
  {
    var s := h + ":" + m + ":" + sec + t;
    var n := |h|;
    assert s == h + (":" + m + ":" + sec + t);
    HourLenOf(h, ":" + m + ":" + sec + t);
    assert s[n] == ':' && s[n + 1] == m[0] && s[n + 2] == m[1] && s[n + 3] == ':';
    assert s[n + 4] == sec[0] && s[n + 5] == sec[1];
    assert s[n + 1..n + 3] == m && s[n + 4..n + 6] == sec;
    SkipSpacesTo(s, n + 4, n + 4);
    assert SecondsOf(s, n + 3) == Some(sec);
    ColonAt(s, n, Some(sec));
  }

  /** Hour digits, `:` and two minute digits with no spaces between, then
      whatever the seconds group makes of the rest. */
  lemma ColonAt(s: string, n: nat, sec: Option<string>)
    requires 1 <= n && HourLen(s) == n && n + 3 <= |s|
    requires s[n] == ':' && IsDigit(s[n + 1]) && IsDigit(s[n + 2])
    requires SecondsOf(s, n + 3) == sec
    ensures MatchColon(s) == Some((s[..n], s[n + 1..n + 3], sec))
  {
    SkipSpacesTo(s, n, n);
    SkipSpacesTo(s, n + 1, n + 1);
  }

  // -------------------------------------------------------------- the store

  /** A program as stored; `cover` is a file id, `""` when there is none. */
  datatype Program = Program(id: nat, title: string, description: string, cover: string)

  datatype Occurrence = Occurrence(day: string, startTime: string, program: nat)

  /** The CMS collections the scripts touch. Programs are looked up by slug,
      so they are kept by slug; `nextId` is the id the next new program gets. */
  datatype Store = Store(programs: map<string, Program>, occurrences: seq<Occurrence>, nextId: nat)

  /** The cover an upsert sends: the new file id, but only when there is one
      and the stored program has none. */
  function NextCover(existing: Option<Program>, coverId: string): (r: string)
    ensures r != [] ==> r == coverId && (existing.None? || existing.value.cover == [])
    ensures coverId != [] && (existing.None? || existing.value.cover == []) ==> r == coverId
  {
    if coverId != [] && (existing.None? || existing.value.cover == []) then coverId else ""
  }

  /** `upsertProgram` once the slug is known to be non-empty: PATCH the
      program with that slug, or POST a new one. Returns the new store and
      the id of the program. */
  function Upsert(store: Store, slug: string, title: string, desc: string, coverId: string): (r: (Store, nat))
    ensures r.0.occurrences == store.occurrences
    ensures r.0.programs.Keys == store.programs.Keys + {slug}
    ensures slug in store.programs ==> r.1 == store.programs[slug].id && r.0.nextId == store.nextId
    ensures slug !in store.programs ==> r.1 == store.nextId && r.0.nextId == store.nextId + 1
    ensures r.0.programs[slug] == Program(r.1, title, desc, r.0.programs[slug].cover)
    ensures forall s :: s in store.programs && s != slug ==> r.0.programs[s] == store.programs[s]
  {
    var existing := if slug in store.programs then Some(store.programs[slug]) else None;
    var next := NextCover(existing, coverId);
    match existing
    case Some(p) =>
      var cover := if next != [] then next else p.cover;
      (store.(programs := store.programs[slug := Program(p.id, title, desc, cover)]), p.id)
    case None =>
      (store.(programs := store.programs[slug := Program(store.nextId, title, desc, next)],
              nextId := store.nextId + 1), store.nextId)
  }

  /** A cover already set is never replaced or cleared by an upsert. */
  lemma UpsertKeepsCover(store: Store, slug: string, title: string, desc: string, coverId: string)
    requires slug in store.programs && store.programs[slug].cover != []
    ensures Upsert(store, slug, title, desc, coverId).0.programs[slug].cover == store.programs[slug].cover
  {
  }

  // ------------------------------------------------------------------- main

  /** One schedule item as the scripts read it (`item?.title`, …). */
  datatype Item = Item(title: JsValue, desc: JsValue, time: JsValue, img: JsValue)

  datatype Counters = Counters(programsCreated: nat, programsUpdated: nat, occurrencesCreated: nat, filesUploaded: nat)

  datatype Run = Run(store: Store, counters: Counters)

  /** A run finishes, or stops on the first title whose slug is empty
      (`upsertProgram` throws); what was written before stays written. */
  datatype Outcome = Done(run: Run) | Aborted(run: Run)

  /** What the loop takes from its script: the start-time parser, the slug
      of a title, and the file id an image upload yields (`""` when the
      upload fails or returns no id). */
  datatype Env = Env(startTime: JsValue -> string, slug: string -> string, upload: string -> string)

  /** scripts/seed-programs-from-static.mjs: `toStartTime` with the `h` form
      only. */
  function SeedEnv(upload: string -> string): (env: Env)
    ensures forall v :: env.startTime(v) == SeedStartTime(v)
    ensures forall t :: env.slug(t) == Slugify(Str(t))
  {
    Env(v => SeedStartTime(v), t => Slugify(Str(t)), upload)
  }

  /** public/scripts/import-programs-from-site.mjs: `toStartTime` with both
      forms. */
  function SiteEnv(upload: string -> string): (env: Env)
    ensures forall v :: env.startTime(v) == ImportStartTime(v)
    ensures forall t :: env.slug(t) == Slugify(Str(t))
  {
    Env(v => ImportStartTime(v), t => Slugify(Str(t)), upload)
  }

  /** One pass of the inner loop of `main`. */
  function Step(env: Env, run: Run, day: string, item: Item): Outcome {
    var title := Field(item.title);
    if title == [] then Done(run)
    else
      var img := Field(item.img);
      var coverId := if img != [] then env.upload(img) else "";
      var c := run.counters;
      var c1 := c.(filesUploaded := c.filesUploaded + if coverId != [] then 1 else 0);
      var slug := env.slug(title);
      if slug == [] then Aborted(Run(run.store, c1))
      else Done(Place(env, Run(run.store, c1), day, item, slug, coverId))
  }

  /** The upsert and the occurrence check, once the slug is known. */
  function Place(env: Env, run: Run, day: string, item: Item, slug: string, coverId: string): Run {
    var c := run.counters;
    var before := slug in run.store.programs;
    var (store, id) := Upsert(run.store, slug, Field(item.title), Field(item.desc), coverId);
    var c2 := if before then c.(programsUpdated := c.programsUpdated + 1)
              else c.(programsCreated := c.programsCreated + 1);
    var occ := Occurrence(day, env.startTime(item.time), id);
    if occ in store.occurrences then Run(store, c2)
    else Run(store.(occurrences := store.occurrences + [occ]),
             c2.(occurrencesCreated := c2.occurrencesCreated + 1))
  }

  /** The items of one day, in order. */
  function RunItems(env: Env, run: Run, day: string, items: seq<Item>): Outcome
    decreases |items|
  {
    if items == [] then Done(run)
    else
      var o := RunItems(env, run, day, items[..|items| - 1]);
      if o.Aborted? then o else Step(env, o.run, day, items[|items| - 1])
  }

  /** The days, in order. */
  function RunDays(env: Env, run: Run, schedule: seq<(string, seq<Item>)>): Outcome
    decreases |schedule|
  {
    if schedule == [] then Done(run)
    else
      var o := RunDays(env, run, schedule[..|schedule| - 1]);
      if o.Aborted? then o else RunItems(env, o.run, schedule[|schedule| - 1].0, schedule[|schedule| - 1].1)
  }

  const Zero := Counters(0, 0, 0, 0)

  /** The body of the inner loop of `main`: skip an untitled item, upload
      the cover, upsert the program, add the occurrence when missing. */
  method ImportItem(env: Env, store: Store, counters: Counters, day: string, item: Item) returns (outcome: Outcome)
    ensures outcome == Step(env, Run(store, counters), day, item)
  {
    var title := Field(item.title);
    if title == [] {
      return Done(Run(store, counters));
    }
    var c := counters;
    var img := Field(item.img);
    var coverId := "";
    if img != [] {
      coverId := env.upload(img);
      if coverId != [] {
        c := c.(filesUploaded := c.filesUploaded + 1);
      }
    }
    var slug := env.slug(title);
    if slug == [] {
      return Aborted(Run(store, c));
    }
    var run := PlaceItem(env, store, c, day, item, slug, coverId);
    outcome := Done(run);
  }

  method PlaceItem(env: Env, store: Store, counters: Counters, day: string, item: Item, slug: string, coverId: string)
    returns (run: Run)
    ensures run == Place(env, Run(store, counters), day, item, slug, coverId)
  {
    var c := counters;
    var before := slug in store.programs;
    var (s, id) := Upsert(store, slug, Field(item.title), Field(item.desc), coverId);
    if before {
      c := c.(programsUpdated := c.programsUpdated + 1);
    } else {
      c := c.(programsCreated := c.programsCreated + 1);
    }
    var occ := Occurrence(day, env.startTime(item.time), id);
    if occ !in s.occurrences {
      s := s.(occurrences := s.occurrences + [occ]);
      c := c.(occurrencesCreated := c.occurrencesCreated + 1);
    }
    run := Run(s, c);
  }

  /** The inner loop of `main`: the items of one day, in order. */
  method ImportDay(env: Env, store0: Store, counters0: Counters, day: string, items: seq<Item>) returns (outcome: Outcome)
    ensures outcome == RunItems(env, Run(store0, counters0), day, items)
  {
    var store, counters := store0, counters0;
    var i := 0;
    while i < |items|
      invariant 0 <= i <= |items|
      invariant RunItems(env, Run(store0, counters0), day, items[..i]) == Done(Run(store, counters))
    {
      assert items[..i + 1][..i] == items[..i];
      var o := ImportItem(env, store, counters, day, items[i]);
      if o.Aborted? {
        RunItemsAbortedStays(env, Run(store0, counters0), day, items, i + 1);
        return o;
      }
      store, counters := o.run.store, o.run.counters;
      i := i + 1;
    }
    assert items[..|items|] == items;
    outcome := Done(Run(store, counters));
  }

  /** `main`: the outer loop over the days, with the four counters starting
      at zero. */
  method ImportSchedule(env: Env, schedule: seq<(string, seq<Item>)>, store0: Store) returns (outcome: Outcome)
    ensures outcome == RunDays(env, Run(store0, Zero), schedule)
  {
    var store, counters := store0, Zero;
    var d := 0;
    while d < |schedule|
      invariant 0 <= d <= |schedule|
      invariant RunDays(env, Run(store0, Zero), schedule[..d]) == Done(Run(store, counters))
    {
      assert schedule[..d + 1][..d] == schedule[..d];
      var o := ImportDay(env, store, counters, schedule[d].0, schedule[d].1);
      if o.Aborted? {
        RunDaysAbortedStays(env, Run(store0, Zero), schedule, d + 1);
        return o;
      }
      store, counters := o.run.store, o.run.counters;
      d := d + 1;
    }
    assert schedule[..|schedule|] == schedule;
    outcome := Done(Run(store, counters));
  }

  /** Once a prefix of the items aborts, the whole day aborts the same way. */
  lemma {:induction false} RunItemsAbortedStays(env: Env, run: Run, day: string, items: seq<Item>, k: nat)
    requires k <= |items| && RunItems(env, run, day, items[..k]).Aborted?
    ensures RunItems(env, run, day, items) == RunItems(env, run, day, items[..k])
    decreases |items| - k
  {
    if k < |items| {
      var items' := items[..k + 1];
      assert items'[..k] == items[..k];
      RunItemsAbortedStays(env, run, day, items, k + 1);
    } else {
      assert items[..k] == items;
    }
  }

  lemma {:induction false} RunDaysAbortedStays(env: Env, run: Run, schedule: seq<(string, seq<Item>)>, k: nat)
    requires k <= |schedule| && RunDays(env, run, schedule[..k]).Aborted?
    ensures RunDays(env, run, schedule) == RunDays(env, run, schedule[..k])
    decreases |schedule| - k
  {
    if k < |schedule| {
      assert schedule[..k + 1][..k] == schedule[..k];
      RunDaysAbortedStays(env, run, schedule, k + 1);
    } else {
      assert schedule[..k] == schedule;
    }
  }

  // ------------------------------------------------------- what a run keeps

  /** `t` is `s` after some upserts and appended occurrences: no program
      disappears or changes id, a cover once set stays, and the old
      occurrences are still there, in order. */
  predicate Extends(s: Store, t: Store) {
    (forall slug :: slug in s.programs ==>
      slug in t.programs && t.programs[slug].id == s.programs[slug].id &&
      (s.programs[slug].cover != [] ==> t.programs[slug].cover == s.programs[slug].cover)) &&
    |s.occurrences| <= |t.occurrences| && t.occurrences[..|s.occurrences|] == s.occurrences
  }

  lemma ExtendsTrans(a: Store, b: Store, c: Store)
    requires Extends(a, b) && Extends(b, c)
    ensures Extends(a, c)
  {
    assert c.occurrences[..|b.occurrences|][..|a.occurrences|] == c.occurrences[..|a.occurrences|];
  }

  predicate Distinct(occs: seq<Occurrence>) {
    forall i, j :: 0 <= i < j < |occs| ==> occs[i] != occs[j]
  }

  /** The program with this slug exists and has this weekly occurrence. */
  predicate Placed(store: Store, day: string, startTime: string, slug: string) {
    slug in store.programs && Occurrence(day, startTime, store.programs[slug].id) in store.occurrences
  }

  lemma PlacedStays(s: Store, t: Store, day: string, startTime: string, slug: string)
    requires Placed(s, day, startTime, slug) && Extends(s, t)
    ensures Placed(t, day, startTime, slug)
  {
    var occ := Occurrence(day, startTime, s.programs[slug].id);
    var k :| 0 <= k < |s.occurrences| && s.occurrences[k] == occ;
    assert t.occurrences[k] == t.occurrences[..|s.occurrences|][k];
  }

  /** The counters agree with the store: every titled item counts once as
      created or updated, every creation took a fresh id, every counted
      occurrence was appended, and no more files than titled items. */
  predicate Accounts(r0: Run, r: Run, titled: nat) {
    var c0, c := r0.counters, r.counters;
    c.programsCreated + c.programsUpdated == c0.programsCreated + c0.programsUpdated + titled &&
    c.filesUploaded <= c0.filesUploaded + titled &&
    c.programsCreated - c0.programsCreated == r.store.nextId - r0.store.nextId &&
    c.occurrencesCreated - c0.occurrencesCreated == |r.store.occurrences| - |r0.store.occurrences|
  }

  lemma PlaceFacts(env: Env, run: Run, day: string, item: Item, slug: string, coverId: string)
    ensures var r := Place(env, run, day, item, slug, coverId);
      Extends(run.store, r.store) && Placed(r.store, day, env.startTime(item.time), slug) &&
      Accounts(run, r, 1) && r.counters.filesUploaded == run.counters.filesUploaded &&
      (Distinct(run.store.occurrences) ==> Distinct(r.store.occurrences))
  {
    var r := Place(env, run, day, item, slug, coverId);
    var occs := r.store.occurrences;
    assert occs[..|run.store.occurrences|] == run.store.occurrences;
    assert occs[|occs| - 1] in occs;
  }

  /** An item already in place is only re-saved: it counts as an update and
      adds no occurrence. */
  lemma PlaceAgain(env: Env, run: Run, day: string, item: Item, slug: string, coverId: string)
    requires Placed(run.store, day, env.startTime(item.time), slug)
    ensures var r := Place(env, run, day, item, slug, coverId);
      r.store.occurrences == run.store.occurrences && r.store.nextId == run.store.nextId &&
      r.counters.programsCreated == run.counters.programsCreated &&
      r.counters.occurrencesCreated == run.counters.occurrencesCreated
  {
  }

  /** An item is in place: untitled, or its program and occurrence exist. */
  predicate ItemPlaced(env: Env, store: Store, day: string, item: Item) {
    Field(item.title) == [] ||
    (env.slug(Field(item.title)) != [] &&
     Placed(store, day, env.startTime(item.time), env.slug(Field(item.title))))
  }

  function Titled(item: Item): nat {
    if Field(item.title) != [] then 1 else 0
  }

  /** The titled items of one day. */
  function TitledCount(items: seq<Item>): nat
    decreases |items|
  {
    if items == [] then 0 else TitledCount(items[..|items| - 1]) + Titled(items[|items| - 1])
  }

  /** The titled items of the whole schedule. */
  function DaysTitled(schedule: seq<(string, seq<Item>)>): nat
    decreases |schedule|
  {
    if schedule == [] then 0
    else DaysTitled(schedule[..|schedule| - 1]) + TitledCount(schedule[|schedule| - 1].1)
  }

  lemma StepFacts(env: Env, run: Run, day: string, item: Item)
    ensures var o := Step(env, run, day, item);
      Extends(run.store, o.run.store) &&
      (Distinct(run.store.occurrences) ==> Distinct(o.run.store.occurrences)) &&
      (o.Done? ==> Accounts(run, o.run, Titled(item)) && ItemPlaced(env, o.run.store, day, item))
  {
    var title := Field(item.title);
    if title != [] {
      var img := Field(item.img);
      var coverId := if img != [] then env.upload(img) else "";
      var c := run.counters;
      var c1 := c.(filesUploaded := c.filesUploaded + if coverId != [] then 1 else 0);
      var slug := env.slug(title);
      if slug != [] {
        PlaceFacts(env, Run(run.store, c1), day, item, slug, coverId);
      }
    }
  }

  lemma StepAgain(env: Env, run: Run, day: string, item: Item)
    requires ItemPlaced(env, run.store, day, item)
    ensures var o := Step(env, run, day, item);
      o.Done? && o.run.store.occurrences == run.store.occurrences && o.run.store.nextId == run.store.nextId &&
      o.run.counters.programsCreated == run.counters.programsCreated &&
      o.run.counters.occurrencesCreated == run.counters.occurrencesCreated
  {
    var title := Field(item.title);
    if title != [] {
      var img := Field(item.img);
      var coverId := if img != [] then env.upload(img) else "";
      var c := run.counters;
      var c1 := c.(filesUploaded := c.filesUploaded + if coverId != [] then 1 else 0);
      PlaceAgain(env, Run(run.store, c1), day, item, env.slug(title), coverId);
    }
  }

  lemma ItemPlacedStays(env: Env, s: Store, t: Store, day: string, item: Item)
    requires ItemPlaced(env, s, day, item) && Extends(s, t)
    ensures ItemPlaced(env, t, day, item)
  {
    if Field(item.title) != [] {
      PlacedStays(s, t, day, env.startTime(item.time), env.slug(Field(item.title)));
    }
  }

  predicate AllPlaced(env: Env, store: Store, schedule: seq<(string, seq<Item>)>) {
    forall d, k :: 0 <= d < |schedule| && 0 <= k < |schedule[d].1| ==>
      ItemPlaced(env, store, schedule[d].0, schedule[d].1[k])
  }

  lemma {:induction false} RunItemsFacts(env: Env, run: Run, day: string, items: seq<Item>)
    ensures var o := RunItems(env, run, day, items);
      Extends(run.store, o.run.store) &&
      (Distinct(run.store.occurrences) ==> Distinct(o.run.store.occurrences)) &&
      (o.Done? ==> Accounts(run, o.run, TitledCount(items)) &&
                   (forall k :: 0 <= k < |items| ==> ItemPlaced(env, o.run.store, day, items[k])))
    decreases |items|
  {
    if items == [] {
      assert run.store.occurrences[..|run.store.occurrences|] == run.store.occurrences;
    } else {
      var pre, last := items[..|items| - 1], items[|items| - 1];
      RunItemsFacts(env, run, day, pre);
      var m := RunItems(env, run, day, pre);
      if m.Done? {
        StepFacts(env, m.run, day, last);
        var o := Step(env, m.run, day, last);
        ExtendsTrans(run.store, m.run.store, o.run.store);
        if o.Done? {
          forall k | 0 <= k < |items| ensures ItemPlaced(env, o.run.store, day, items[k]) {
            if k < |items| - 1 {
              assert items[k] == pre[k];
              ItemPlacedStays(env, m.run.store, o.run.store, day, items[k]);
            }
          }
        }
      }
    }
  }

  lemma {:induction false} RunDaysFacts(env: Env, run: Run, schedule: seq<(string, seq<Item>)>)
    ensures var o := RunDays(env, run, schedule);
      Extends(run.store, o.run.store) &&
      (Distinct(run.store.occurrences) ==> Distinct(o.run.store.occurrences)) &&
      (o.Done? ==> Accounts(run, o.run, DaysTitled(schedule)) && AllPlaced(env, o.run.store, schedule))
    decreases |schedule|
  {
    if schedule == [] {
      assert run.store.occurrences[..|run.store.occurrences|] == run.store.occurrences;
    } else {
      var pre, last := schedule[..|schedule| - 1], schedule[|schedule| - 1];
      RunDaysFacts(env, run, pre);
      var m := RunDays(env, run, pre);
      if m.Done? {
        RunItemsFacts(env, m.run, last.0, last.1);
        var o := RunItems(env, m.run, last.0, last.1);
        ExtendsTrans(run.store, m.run.store, o.run.store);
        if o.Done? {
          forall d, k | 0 <= d < |schedule| && 0 <= k < |schedule[d].1|
            ensures ItemPlaced(env, o.run.store, schedule[d].0, schedule[d].1[k])
          {
            if d < |schedule| - 1 {
              assert schedule[d] == pre[d];
              ItemPlacedStays(env, m.run.store, o.run.store, schedule[d].0, schedule[d].1[k]);
            }
          }
        }
      }
    }
  }

  lemma {:induction false} RunItemsAgain(env: Env, run: Run, day: string, items: seq<Item>)
    requires forall k :: 0 <= k < |items| ==> ItemPlaced(env, run.store, day, items[k])
    ensures var o := RunItems(env, run, day, items);
      o.Done? && o.run.store.occurrences == run.store.occurrences && o.run.store.nextId == run.store.nextId &&
      o.run.counters.programsCreated == run.counters.programsCreated &&
      o.run.counters.occurrencesCreated == run.counters.occurrencesCreated
    decreases |items|
  {
    if items != [] {
      var pre, last := items[..|items| - 1], items[|items| - 1];
      forall k | 0 <= k < |pre| ensures ItemPlaced(env, run.store, day, pre[k]) {
        assert pre[k] == items[k];
      }
      RunItemsAgain(env, run, day, pre);
      RunItemsFacts(env, run, day, pre);
      var m := RunItems(env, run, day, pre);
      ItemPlacedStays(env, run.store, m.run.store, day, last);
      StepAgain(env, m.run, day, last);
    }
  }

  lemma {:induction false} RunDaysAgain(env: Env, run: Run, schedule: seq<(string, seq<Item>)>)
    requires AllPlaced(env, run.store, schedule)
    ensures var o := RunDays(env, run, schedule);
      o.Done? && o.run.store.occurrences == run.store.occurrences && o.run.store.nextId == run.store.nextId &&
      o.run.counters.programsCreated == run.counters.programsCreated &&
      o.run.counters.occurrencesCreated == run.counters.occurrencesCreated
    decreases |schedule|
  {
    if schedule != [] {
      var pre, last := schedule[..|schedule| - 1], schedule[|schedule| - 1];
      forall d, k | 0 <= d < |pre| && 0 <= k < |pre[d].1| ensures ItemPlaced(env, run.store, pre[d].0, pre[d].1[k]) {
        assert pre[d] == schedule[d];
      }
      RunDaysAgain(env, run, pre);
      RunDaysFacts(env, run, pre);
      var m := RunDays(env, run, pre);
      forall k | 0 <= k < |last.1| ensures ItemPlaced(env, m.run.store, last.0, last.1[k]) {
        ItemPlacedStays(env, run.store, m.run.store, last.0, last.1[k]);
      }
      RunItemsAgain(env, m.run, last.0, last.1);
    }
  }

  /** The four counters printed at the end of a finished run tell the truth:
      each titled item is counted once as created or updated, every created
      program took a fresh id, every counted occurrence is a new entry, and
      no more files were uploaded than there were titled items. */
  lemma ImportCounters(env: Env, store0: Store, schedule: seq<(string, seq<Item>)>)
    requires RunDays(env, Run(store0, Zero), schedule).Done?
    ensures var r := RunDays(env, Run(store0, Zero), schedule).run;
      r.counters.programsCreated + r.counters.programsUpdated == DaysTitled(schedule) &&
      r.counters.filesUploaded <= DaysTitled(schedule) &&
      r.counters.programsCreated == r.store.nextId - store0.nextId &&
      r.counters.occurrencesCreated == |r.store.occurrences| - |store0.occurrences|
  {
    RunDaysFacts(env, Run(store0, Zero), schedule);
  }

  /** Finished or not, a run deletes nothing: every program keeps its id,
      no cover already set is replaced, the existing occurrences stay in
      place, and no occurrence is ever stored twice. */
  lemma ImportKeepsStore(env: Env, store0: Store, schedule: seq<(string, seq<Item>)>)
    ensures var r := RunDays(env, Run(store0, Zero), schedule).run;
      Extends(store0, r.store) &&
      (Distinct(store0.occurrences) ==> Distinct(r.store.occurrences))
  {
    RunDaysFacts(env, Run(store0, Zero), schedule);
  }

  /** Running the import a second time over the store a finished run left
      creates no program and no occurrence: the script can be re-run safely. */
  lemma ImportRerunCreatesNothing(env: Env, store0: Store, schedule: seq<(string, seq<Item>)>)
    requires RunDays(env, Run(store0, Zero), schedule).Done?
    ensures var store1 := RunDays(env, Run(store0, Zero), schedule).run.store;
      var o := RunDays(env, Run(store1, Zero), schedule);
      o.Done? && o.run.counters.programsCreated == 0 && o.run.counters.occurrencesCreated == 0 &&
      o.run.store.occurrences == store1.occurrences && o.run.store.nextId == store1.nextId
  {
    RunDaysFacts(env, Run(store0, Zero), schedule);
    RunDaysAgain(env, Run(RunDays(env, Run(store0, Zero), schedule).run.store, Zero), schedule);
  }
}
