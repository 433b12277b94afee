/** The Directus helpers (src/lib/directus.ts): a per-runtime micro-cache in
    front of GET requests, with a fresh window (`exp`), a stale-while-revalidate
    window (`swr`) and a `pending` flag that keeps a second background refresh
    of an entry from starting inside its stale window, plus the asset URL
    builder. The network answer and the clock are parameters; the background
    refresh is a separate "refresh completes" step. */
module Directus {
  import opened Common
  import opened Text

  const DefaultTtlMs: int := 30000
  const DefaultSwrMs: int := 300000
  const MissingBase: string := "DIRECTUS_URL / PUBLIC_DIRECTUS_URL is not set"

  /** One header as produced by `new Headers(...).entries()`: a name and a value. */
  type Header = (string, string)

  /** The parts of `RequestInit` the helper looks at. `verb` (the `method` field) absent or empty
      means GET; `hasBody` is `body != null`. */
  datatype Init = Init(verb: Option<string>, hasBody: bool, headers: Option<seq<Header>>)

  datatype CacheOptions = CacheOptions(ttlMs: Option<int>, swrMs: Option<int>)

  /** What the server answers: an OK body, or a status and error text. */
  datatype Fetched = Ok(body: string) | NotOk(status: int, text: string)

  /** The promise's settlement: a value, or a thrown error message. */
  datatype Outcome = Value(v: string) | Failure(message: string)

  datatype CacheEntry = CacheEntry(exp: int, swr: int, value: string, pending: bool)

  /** `${BASE}${path.startsWith("/") ? "" : "/"}${path}` */
  function RequestUrl(base: string, path: string): (u: string)
    ensures StartsWith(path, "/") ==> u == base + path
    ensures !StartsWith(path, "/") ==> u == base + "/" + path
  {
    base + (if StartsWith(path, "/") then "" else "/") + path
  }

  /** `cache?.ttlMs ?? DEFAULT_TTL_MS` */
  function Ttl(opts: Option<CacheOptions>): int {
    if opts.Some? && opts.value.ttlMs.Some? then opts.value.ttlMs.value else DefaultTtlMs
  }

  /** `cache?.swrMs ?? DEFAULT_SWR_MS` */
  function Swr(opts: Option<CacheOptions>): int {
    if opts.Some? && opts.value.swrMs.Some? then opts.value.swrMs.value else DefaultSwrMs
  }

  /** `(init?.method || "GET").toUpperCase()` */
  function MethodName(init: Option<Init>): string {
    if init.None? || init.value.verb.None? || init.value.verb.value == [] then "GET"
    else Upper(init.value.verb.value)
  }

  /** Only bodiless GET requests go through the cache. */
  predicate Cacheable(init: Option<Init>) {
    MethodName(init) == "GET" && (init.None? || !init.value.hasBody)
  }

  /** A request method names GET, in any letter case, exactly when its
      lower-case form is "get". */
  lemma GetIgnoresCase(m: string)
    ensures Upper(m) == "GET" <==> Lower(m) == "get"
  {
    if |m| == 3 {
      assert Upper(m) == [UpperChar(m[0]), UpperChar(m[1]), UpperChar(m[2])];
      assert Lower(m) == [LowerChar(m[0]), LowerChar(m[1]), LowerChar(m[2])];
    }
  }

  /** The request is cacheable exactly when it has no body and its method is
      missing, empty, or "get" in any letter case. */
  lemma CacheableIff(init: Option<Init>)
    ensures Cacheable(init) <==>
      (init.None? ||
       (!init.value.hasBody &&
        (init.value.verb.None? || init.value.verb.value == [] || Lower(init.value.verb.value) == "get")))
  {
    if init.Some? && init.value.verb.Some? && init.value.verb.value != [] {
      GetIgnoresCase(init.value.verb.value);
    }
  }

  /** `JSON.stringify` of a string whose only special characters are `"` and `\`. */
  function JsonString(s: string): string {
    "\"" + MapChars(s, c => if c == '"' then "\\\"" else if c == '\\' then "\\\\" else [c]) + "\""
  }

  function JsonEntries(hs: seq<Header>): string {
    Join(seq(|hs|, i requires 0 <= i < |hs| => "[" + JsonString(hs[i].0) + "," + JsonString(hs[i].1) + "]"), ",")
  }

  // ------------------------------------------------ headers sorted by name

  /** Lexicographic character-code order on strings (the source compares with `localeCompare`). */
  predicate StrLess(a: string, b: string)
    decreases |a|
  {
    if a == [] then b != []
    else if b == [] then false
    else if a[0] != b[0] then a[0] < b[0]
    else StrLess(a[1..], b[1..])
  }

  lemma {:induction false} StrLessAsymmetric(a: string, b: string)
    ensures !(StrLess(a, b) && StrLess(b, a))
    decreases |a|
  {
    if a != [] && b != [] && a[0] == b[0] {
      StrLessAsymmetric(a[1..], b[1..]);
    }
  }

  lemma {:induction false} StrLessTotal(a: string, b: string)
    requires a != b
    ensures StrLess(a, b) || StrLess(b, a)
    decreases |a|
  {
    if a != [] && b != [] && a[0] == b[0] {
      assert a == [a[0]] + a[1..] && b == [b[0]] + b[1..];
      StrLessTotal(a[1..], b[1..]);
    }
  }

  function InsertByName(h: Header, s: seq<Header>): (r: seq<Header>)
    ensures multiset(r) == multiset(s) + multiset{h}
  {
    if s == [] then [h]
    else
      assert s == [s[0]] + s[1..];
      if StrLess(s[0].0, h.0) then [s[0]] + InsertByName(h, s[1..]) else [h] + s
  }

  /** The entries sorted by name. */
  function SortByName(s: seq<Header>): (r: seq<Header>)
    ensures multiset(r) == multiset(s)
  {
    if s == [] then [] else (assert s == [s[0]] + s[1..]; InsertByName(s[0], SortByName(s[1..])))
  }

  predicate DistinctNames(s: seq<Header>) {
    forall i, j :: 0 <= i < j < |s| ==> s[i].0 != s[j].0
  }

  predicate StrictlySorted(s: seq<Header>) {
    forall i, j :: 0 <= i < j < |s| ==> StrLess(s[i].0, s[j].0)
  }

  lemma {:induction false} InsertKeepsSorted(h: Header, s: seq<Header>)
    requires StrictlySorted(s)
    requires forall x :: x in s ==> x.0 != h.0
    ensures StrictlySorted(InsertByName(h, s))
  {
    if s != [] {
      StrLessTotal(s[0].0, h.0);
      if StrLess(s[0].0, h.0) {
        InsertKeepsSorted(h, s[1..]);
        var r := InsertByName(h, s);
        forall j | 1 <= j < |r| ensures StrLess(r[0].0, r[j].0) {
          assert r[j] in multiset(s[1..]) + multiset{h};
          if r[j] != h {
            assert r[j] in s[1..];
            var k :| 0 <= k < |s[1..]| && s[1..][k] == r[j];
            assert s[k + 1] == r[j];
          }
        }
      } else {
        forall j | 0 <= j < |s| ensures StrLess(h.0, s[j].0) {
          if j > 0 {
            StrLessTransitive(h.0, s[0].0, s[j].0);
          }
        }
      }
    }
  }

  lemma {:induction false} StrLessTransitive(a: string, b: string, c: string)
    requires StrLess(a, b) && StrLess(b, c)
    ensures StrLess(a, c)
    decreases |a|
  {
    if a != [] && a[0] == b[0] && b[0] == c[0] {
      StrLessTransitive(a[1..], b[1..], c[1..]);
    }
  }

  lemma {:induction false} SortByNameSorted(s: seq<Header>)
    requires DistinctNames(s)
    ensures StrictlySorted(SortByName(s))
  {
    if s != [] {
      assert DistinctNames(s[1..]) by {
        forall i, j | 0 <= i < j < |s[1..]| ensures s[1..][i].0 != s[1..][j].0 {
          assert s[1..][i] == s[i + 1] && s[1..][j] == s[j + 1];
        }
      }
      SortByNameSorted(s[1..]);
      var t := SortByName(s[1..]);
      forall x | x in t ensures x.0 != s[0].0 {
        assert x in multiset(s[1..]);
        var k :| 0 <= k < |s[1..]| && s[1..][k] == x;
        assert s[k + 1] == x;
      }
      InsertKeepsSorted(s[0], t);
    }
  }

  // ------------------------------------------------ `new Headers(...)`

  /** The values given for the header named `n`, ignoring the case of
      names, in the order given. */
  function ValuesOf(hs: seq<Header>, n: string): (vs: seq<string>)
    ensures vs != [] <==> exists i :: 0 <= i < |hs| && Lower(hs[i].0) == n
    decreases |hs|
  {
    if hs == [] then []
    else
      var rest := ValuesOf(hs[..|hs| - 1], n);
      var last := hs[|hs| - 1];
      if Lower(last.0) == n then rest + [last.1] else rest
  }

  /** The lower-cased names, each once, where they first occur. */
  function HeaderNames(hs: seq<Header>): (ns: seq<string>)
    ensures forall i, j :: 0 <= i < j < |ns| ==> ns[i] != ns[j]
    ensures forall n :: n in ns <==> exists i :: 0 <= i < |hs| && Lower(hs[i].0) == n
    decreases |hs|
  {
    if hs == [] then []
    else
      var rest := HeaderNames(hs[..|hs| - 1]);
      var n := Lower(hs[|hs| - 1].0);
      if n in rest then rest else rest + [n]
  }

  /** What `new Headers` puts between the values of one name. */
  const ValueSep: string := ", "

  /** `new Headers(init)` as `entries()` reports it: the names are
      lower-cased, and the headers sharing a name become one entry whose
      value joins theirs with ", " in the order given. */
  function Combine(hs: seq<Header>): (r: seq<Header>)
    ensures |r| == |HeaderNames(hs)|
    ensures DistinctNames(r)
  {
    var ns := HeaderNames(hs);
    seq(|ns|, i requires 0 <= i < |ns| => (ns[i], Join(ValuesOf(hs, ns[i]), ValueSep)))
  }

  /** An entry of `new Headers(init)` is a name given at least once, with
      all its values joined, and every such name has its entry. */
  lemma InCombine(hs: seq<Header>, x: Header)
    ensures x in Combine(hs) <==> ValuesOf(hs, x.0) != [] && x.1 == Join(ValuesOf(hs, x.0), ValueSep)
  {
    var ns, r := HeaderNames(hs), Combine(hs);
    if x in r {
      var i :| 0 <= i < |r| && r[i] == x;
      assert ns[i] in ns;
    }
    if ValuesOf(hs, x.0) != [] && x.1 == Join(ValuesOf(hs, x.0), ValueSep) {
      assert x.0 in ns;
      var i :| 0 <= i < |ns| && ns[i] == x.0;
      assert r[i] == x;
    }
  }

  /** Two strictly sorted sequences holding the same entries are equal. */
  lemma {:induction false} SortedUnique(a: seq<Header>, b: seq<Header>)
    requires StrictlySorted(a) && StrictlySorted(b)
    requires forall x: Header :: x in a <==> x in b
    ensures a == b
    decreases |a|
  {
    assert b != [] ==> b[0] in a;
    if a != [] {
      assert a[0] in b;
      var k :| 0 <= k < |b| && b[k] == a[0];
      assert b[0] in b;
      var m :| 0 <= m < |a| && a[m] == b[0];
      if k > 0 && m > 0 {
        StrLessAsymmetric(a[0].0, b[0].0);
      }
      assert a[0] == b[0];
      forall x: Header ensures x in a[1..] <==> x in b[1..] {
        SortedTailMember(a, x);
        SortedTailMember(b, x);
      }
      SortedUnique(a[1..], b[1..]);
      assert a == [a[0]] + a[1..] && b == [b[0]] + b[1..];
    }
  }

  /** In a strictly sorted sequence the head occurs once. */
  lemma SortedTailMember(a: seq<Header>, x: Header)
    requires StrictlySorted(a) && a != []
    ensures x in a[1..] <==> x in a && x != a[0]
  {
    if x in a[1..] {
      var j :| 1 <= j < |a| && a[j] == x;
      StrLessAsymmetric(a[0].0, a[j].0);
    }
    if x in a && x != a[0] {
      var j :| 0 <= j < |a| && a[j] == x;
      assert a[1..][j - 1] == x;
    }
  }

  /** The header part of the cache key: the JSON array of `[name, value]`
      pairs of `new Headers(headers)` sorted by name, or "" when no headers
      are given. */
  function HeaderKey(headers: Option<seq<Header>>): string {
    if headers.None? then "" else "[" + JsonEntries(SortByName(Combine(headers.value))) + "]"
  }

  /** Headers that give every name, whatever its case, the same values in
      the same order share a cache entry: reordering headers of different
      names, or changing the case of a name, leaves the key as it is. */
  lemma HeaderKeyIgnoresOrder(h1: seq<Header>, h2: seq<Header>)
    requires forall n :: ValuesOf(h1, n) == ValuesOf(h2, n)
    ensures HeaderKey(Some(h1)) == HeaderKey(Some(h2))
  {
    var c1, c2 := Combine(h1), Combine(h2);
    SortByNameSorted(c1);
    SortByNameSorted(c2);
    forall x: Header ensures x in SortByName(c1) <==> x in SortByName(c2) {
      InCombine(h1, x);
      InCombine(h2, x);
      assert x in SortByName(c1) <==> x in multiset(SortByName(c1));
      assert x in SortByName(c2) <==> x in multiset(SortByName(c2));
    }
    SortedUnique(SortByName(c1), SortByName(c2));
  }

  /** Writing every name in lower case gives the same key. */
  lemma HeaderKeyIgnoresNameCase(hs: seq<Header>)
    ensures HeaderKey(Some(hs)) == HeaderKey(Some(LowerNames(hs)))
  {
    forall n ensures ValuesOf(hs, n) == ValuesOf(LowerNames(hs), n) {
      ValuesOfLowerNames(hs, n);
    }
    HeaderKeyIgnoresOrder(hs, LowerNames(hs));
  }

  function LowerNames(hs: seq<Header>): (r: seq<Header>)
    ensures |r| == |hs| && forall i :: 0 <= i < |hs| ==> r[i] == (Lower(hs[i].0), hs[i].1)
  {
    seq(|hs|, i requires 0 <= i < |hs| => (Lower(hs[i].0), hs[i].1))
  }

  lemma {:induction false} ValuesOfLowerNames(hs: seq<Header>, n: string)
    ensures ValuesOf(hs, n) == ValuesOf(LowerNames(hs), n)
    decreases |hs|
  {
    if hs != [] {
      var init, last, lh := hs[..|hs| - 1], hs[|hs| - 1], LowerNames(hs);
      ValuesOfLowerNames(init, n);
      assert lh[..|hs| - 1] == LowerNames(init);
      assert lh[|hs| - 1] == (Lower(last.0), last.1);
      LowerIdempotent(last.0);
    }
  }

  lemma LowerIdempotent(s: string)
    ensures Lower(Lower(s)) == Lower(s)
  {
  }

  /** Two values given for one name merge into one entry, the first
      value first. */
  lemma CombineMergesValues(n: string, v1: string, v2: string)
    ensures Combine([(n, v1), (n, v2)]) == [(Lower(n), v1 + ValueSep + v2)]
  {
    var a := [(n, v1), (n, v2)];
    assert a[..1] == [(n, v1)] && a[..1][..0] == [];
    assert ValuesOf(a[..1], Lower(n)) == [v1];
    assert ValuesOf(a, Lower(n)) == [v1, v2];
    assert HeaderNames(a[..1]) == [Lower(n)];
    assert HeaderNames(a) == [Lower(n)];
    assert Join([v1, v2], ValueSep) == v1 + ValueSep + v2 by {
      assert [v1, v2][1..] == [v2];
    }
  }

  /** `GET:${url}:${headerKey}` */
  function CacheKey(url: string, init: Option<Init>): (k: string)
    ensures StartsWith(k, "GET:" + url + ":")
  {
    var k := "GET:" + url + ":" + HeaderKey(if init.None? then None else init.value.headers);
    assert k[..|"GET:" + url + ":"|] == "GET:" + url + ":";
    k
  }

  // ------------------------------------------------------- the cache steps

  /** The settlement of a direct fetch: the body, or the error thrown for a
      non-OK response. */
  function FromFetch(f: Fetched): (r: Outcome)
    ensures f.Ok? <==> r.Value?
    ensures f.Ok? ==> r == Value(f.body)
  {
    match f
    case Ok(b) => Value(b)
    case NotOk(s, t) => Failure("Directus GET " + IntToString(s) + ": " + t)
  }

  datatype Decision = Fresh | Stale | Miss

  /** Which of the three lookup cases applies to a cache hit at time `now`. */
  function Classify(hit: Option<CacheEntry>, now: int): (d: Decision)
    ensures d == Fresh <==> hit.Some? && now < hit.value.exp
    ensures d == Stale <==> hit.Some? && hit.value.exp <= now < hit.value.swr
    ensures d == Miss <==> hit.None? || (hit.value.exp <= now && hit.value.swr <= now)
  {
    if hit.Some? && now < hit.value.exp then Fresh
    else if hit.Some? && now < hit.value.swr then Stale
    else Miss
  }

  /** The result of one `directusGet` call: its settlement, the cache after
      it, and whether it started a background refresh. */
  datatype StepResult = StepResult(out: Outcome, cache: map<string, CacheEntry>, refresh: bool)

  /** One `directusGet(path, init, opts)` at time `now` against `cache`;
      `answer` is what the server would send if asked. */
  function Step(cache: map<string, CacheEntry>, base: string, path: string, init: Option<Init>,
                opts: Option<CacheOptions>, now: int, answer: Fetched): StepResult
  {
    if base == [] then StepResult(Failure(MissingBase), cache, false)
    else if !Cacheable(init) then StepResult(FromFetch(answer), cache, false)
    else
      var key := CacheKey(RequestUrl(base, path), init);
      var hit := if key in cache then Some(cache[key]) else None;
      match Classify(hit, now)
      case Fresh => StepResult(Value(hit.value.value), cache, false)
      case Stale =>
        if hit.value.pending then StepResult(Value(hit.value.value), cache, false)
        else StepResult(Value(hit.value.value), cache[key := hit.value.(pending := true)], true)
      case Miss =>
        match answer
        case Ok(b) => StepResult(Value(b), cache[key := CacheEntry(now + Ttl(opts), now + Swr(opts), b, false)], false)
        case NotOk(_, _) => StepResult(FromFetch(answer), cache, false)
  }

  /** The background refresh for `key` settles at time `t`: a success replaces
      the entry, a failure keeps the stale value and clears `pending`. */
  function Complete(cache: map<string, CacheEntry>, key: string, t: int, ttl: int, swr: int,
                    answer: Fetched): map<string, CacheEntry>
  {
    match answer
    case Ok(b) => cache[key := CacheEntry(t + ttl, t + swr, b, false)]
    case NotOk(_, _) => if key in cache then cache[key := cache[key].(pending := false)] else cache
  }

  /** Every entry's fresh window ends no later than its stale window. */
  predicate Valid(cache: map<string, CacheEntry>) {
    forall k :: k in cache ==> cache[k].exp <= cache[k].swr
  }

  /** A request that bypasses the cache neither reads nor writes it. */
  lemma UncacheableBypasses(cache: map<string, CacheEntry>, base: string, path: string, init: Option<Init>,
                            opts: Option<CacheOptions>, now: int, answer: Fetched)
    requires base != [] && !Cacheable(init)
    ensures Step(cache, base, path, init, opts, now, answer) == StepResult(FromFetch(answer), cache, false)
    ensures forall c2 :: Step(c2, base, path, init, opts, now, answer).out == FromFetch(answer)
  {
  }

  /** A fresh hit returns the stored value, leaves the cache alone, and does
      not depend on what the server would answer. */
  lemma FreshHitNoFetch(cache: map<string, CacheEntry>, base: string, path: string, init: Option<Init>,
                        opts: Option<CacheOptions>, now: int, a1: Fetched, a2: Fetched)
    requires base != [] && Cacheable(init)
    requires var key := CacheKey(RequestUrl(base, path), init); key in cache && now < cache[key].exp
    ensures var key := CacheKey(RequestUrl(base, path), init);
      Step(cache, base, path, init, opts, now, a1) == StepResult(Value(cache[key].value), cache, false)
    ensures Step(cache, base, path, init, opts, now, a1) == Step(cache, base, path, init, opts, now, a2)
  {
  }

  /** A stale hit returns the stored value without asking the server, and
      starts a refresh exactly when none is pending, marking it pending. */
  lemma StaleHitRevalidates(cache: map<string, CacheEntry>, base: string, path: string, init: Option<Init>,
                            opts: Option<CacheOptions>, now: int, answer: Fetched)
    requires base != [] && Cacheable(init)
    requires var key := CacheKey(RequestUrl(base, path), init);
      key in cache && cache[key].exp <= now < cache[key].swr
    ensures var key := CacheKey(RequestUrl(base, path), init);
      var r := Step(cache, base, path, init, opts, now, answer);
      r.out == Value(cache[key].value) &&
      (r.refresh <==> !cache[key].pending) &&
      r.cache == cache[key := cache[key].(pending := true)]
  {
    var key := CacheKey(RequestUrl(base, path), init);
    if cache[key].pending {
      assert cache[key := cache[key].(pending := true)] == cache;
    }
  }

  /** One `directusGet` call of a run: its options, its time and what the
      server would answer. */
  datatype Call = Call(opts: Option<CacheOptions>, now: int, answer: Fetched)

  /** The cache after a run of calls, and how many of them started a
      background refresh. */
  datatype RunResult = RunResult(cache: map<string, CacheEntry>, refreshes: nat)

  /** Repeated `directusGet` calls of one request, with no background
      refresh completing in between. */
  function Lookups(cache: map<string, CacheEntry>, base: string, path: string, init: Option<Init>,
                   calls: seq<Call>): (r: RunResult)
    ensures r.refreshes <= |calls|
    decreases |calls|
  {
    if calls == [] then RunResult(cache, 0)
    else
      var s := Step(cache, base, path, init, calls[0].opts, calls[0].now, calls[0].answer);
      var rest := Lookups(s.cache, base, path, init, calls[1..]);
      RunResult(rest.cache, rest.refreshes + if s.refresh then 1 else 0)
  }

  /** While the entry of a request has a refresh pending, lookups of that
      request made before its stale window ends start no other refresh and
      leave the entry as it is. */
  lemma {:induction false} PendingBlocksRefresh(cache: map<string, CacheEntry>, base: string, path: string,
                                                init: Option<Init>, calls: seq<Call>)
    requires CacheKey(RequestUrl(base, path), init) in cache
    requires cache[CacheKey(RequestUrl(base, path), init)].pending
    requires forall i :: 0 <= i < |calls| ==> calls[i].now < cache[CacheKey(RequestUrl(base, path), init)].swr
    ensures var key := CacheKey(RequestUrl(base, path), init);
      var r := Lookups(cache, base, path, init, calls);
      r.refreshes == 0 && key in r.cache && r.cache[key] == cache[key]
    decreases |calls|
  {
    if calls != [] {
      var key := CacheKey(RequestUrl(base, path), init);
      var s := Step(cache, base, path, init, calls[0].opts, calls[0].now, calls[0].answer);
      PendingStepKeeps(cache, base, path, init, calls[0]);
      assert forall i :: 0 <= i < |calls[1..]| ==> calls[1..][i].now < s.cache[key].swr by {
        forall i | 0 <= i < |calls[1..]| ensures calls[1..][i].now < s.cache[key].swr {
          assert calls[1..][i] == calls[i + 1];
        }
      }
      PendingBlocksRefresh(s.cache, base, path, init, calls[1..]);
    }
  }

  /** One lookup of a request whose entry has a refresh pending, inside its
      stale window, starts nothing and keeps the entry. */
  lemma PendingStepKeeps(cache: map<string, CacheEntry>, base: string, path: string, init: Option<Init>, c: Call)
    requires CacheKey(RequestUrl(base, path), init) in cache
    requires cache[CacheKey(RequestUrl(base, path), init)].pending
    requires c.now < cache[CacheKey(RequestUrl(base, path), init)].swr
    ensures var key := CacheKey(RequestUrl(base, path), init);
      var s := Step(cache, base, path, init, c.opts, c.now, c.answer);
      !s.refresh && s.cache == cache
  {
  }

  /** Once a lookup has started a refresh for a key, the lookups of that
      key that follow before its stale window ends start no other one: at
      most one refresh is outstanding for the entry. */
  lemma AtMostOneRefresh(cache: map<string, CacheEntry>, base: string, path: string, init: Option<Init>,
                         first: Call, calls: seq<Call>)
    requires Step(cache, base, path, init, first.opts, first.now, first.answer).refresh
    requires forall i :: 0 <= i < |calls| ==> calls[i].now < cache[CacheKey(RequestUrl(base, path), init)].swr
    ensures Lookups(cache, base, path, init, [first] + calls).refreshes == 1
  {
    var key := CacheKey(RequestUrl(base, path), init);
    var s := Step(cache, base, path, init, first.opts, first.now, first.answer);
    assert key in s.cache && s.cache[key].pending && s.cache[key].swr == cache[key].swr;
    PendingBlocksRefresh(s.cache, base, path, init, calls);
    assert ([first] + calls)[1..] == calls;
  }

  /** The guard holds only inside the stale window: a lookup after it ends
      finds a miss even while a refresh is pending, stores a new entry with
      no refresh pending, and the next stale lookup starts a second refresh
      while the first may still be outstanding. */
  lemma RefreshAgainAfterWindow(cache: map<string, CacheEntry>, base: string, path: string, init: Option<Init>,
                                late: Call, next: Call)
    requires base != [] && Cacheable(init) && Valid(cache)
    requires CacheKey(RequestUrl(base, path), init) in cache
    requires cache[CacheKey(RequestUrl(base, path), init)].pending
    requires cache[CacheKey(RequestUrl(base, path), init)].swr <= late.now && late.answer.Ok?
    requires late.now + Ttl(late.opts) <= next.now < late.now + Swr(late.opts)
    ensures Lookups(cache, base, path, init, [late, next]).refreshes == 1
    ensures Step(Step(cache, base, path, init, late.opts, late.now, late.answer).cache,
                 base, path, init, next.opts, next.now, next.answer).refresh
  {
    var key := CacheKey(RequestUrl(base, path), init);
    var s := Step(cache, base, path, init, late.opts, late.now, late.answer);
    assert !s.refresh && key in s.cache && !s.cache[key].pending;
    assert [late, next][1..] == [next] && [next][1..] == [];
  }

  /** A miss (or an entry past its stale window) asks the server: an answer
      is stored with windows measured from `now`; an error is thrown and the
      cache is left as it was. */
  lemma MissFetches(cache: map<string, CacheEntry>, base: string, path: string, init: Option<Init>,
                    opts: Option<CacheOptions>, now: int, answer: Fetched)
    requires base != [] && Cacheable(init)
    requires var key := CacheKey(RequestUrl(base, path), init);
      key !in cache || (cache[key].exp <= now && cache[key].swr <= now)
    ensures var key := CacheKey(RequestUrl(base, path), init);
      var r := Step(cache, base, path, init, opts, now, answer);
      r.out == FromFetch(answer) && !r.refresh &&
      (answer.Ok? ==> r.cache == cache[key := CacheEntry(now + Ttl(opts), now + Swr(opts), answer.body, false)]) &&
      (answer.NotOk? ==> r.cache == cache)
  {
  }

  /** A failed refresh keeps the stale value and windows and clears `pending`;
      a successful one replaces the entry with windows measured from `t`. */
  lemma RefreshSettles(cache: map<string, CacheEntry>, key: string, t: int, ttl: int, swr: int, answer: Fetched)
    ensures var c := Complete(cache, key, t, ttl, swr, answer);
      (answer.Ok? ==> c[key] == CacheEntry(t + ttl, t + swr, answer.body, false)) &&
      (answer.NotOk? && key in cache ==>
        c[key] == CacheEntry(cache[key].exp, cache[key].swr, cache[key].value, false)) &&
      (forall k :: k in cache && k != key ==> k in c && c[k] == cache[k]) &&
      (key in c ==> !c[key].pending)
  {
  }

  /** With `ttl <= swr`, which the defaults satisfy, every lookup and every
      refresh keeps `exp <= swr` for all stored entries. */
  lemma StepKeepsValid(cache: map<string, CacheEntry>, base: string, path: string, init: Option<Init>,
                       opts: Option<CacheOptions>, now: int, answer: Fetched)
    requires Valid(cache) && Ttl(opts) <= Swr(opts)
    ensures Valid(Step(cache, base, path, init, opts, now, answer).cache)
  {
  }

  lemma CompleteKeepsValid(cache: map<string, CacheEntry>, key: string, t: int, ttl: int, swr: int, answer: Fetched)
    requires Valid(cache) && ttl <= swr
    ensures Valid(Complete(cache, key, t, ttl, swr, answer))
  {
  }

  lemma DefaultsKeepValid(cache: map<string, CacheEntry>, base: string, path: string, init: Option<Init>,
                          now: int, answer: Fetched)
    requires Valid(cache)
    ensures Valid(Step(cache, base, path, init, None, now, answer).cache)
    ensures Ttl(None) == 30000 && Swr(None) == 300000
  {
    StepKeepsValid(cache, base, path, init, None, now, answer);
  }

  /** The module-level `_cache` map, updated in place by lookups and by
      background refreshes. */
  class MicroCache {
    var entries: map<string, CacheEntry>

    constructor ()
      ensures entries == map[]
    {
      entries := map[];
    }

    /** `directusGet`: the settlement, the new cache, and whether a refresh
        was started are those of `Step`. */
    method Get(base: string, path: string, init: Option<Init>, opts: Option<CacheOptions>,
               now: int, answer: Fetched) returns (out: Outcome, refreshStarted: bool)
      modifies this
      ensures StepResult(out, entries, refreshStarted) == Step(old(entries), base, path, init, opts, now, answer)
      ensures old(Valid(entries)) && Ttl(opts) <= Swr(opts) ==> Valid(entries)
    {
      ghost var r := Step(entries, base, path, init, opts, now, answer);
      if Valid(entries) && Ttl(opts) <= Swr(opts) {
        StepKeepsValid(entries, base, path, init, opts, now, answer);
      }
      refreshStarted := false;
      if base == [] {
        out := Failure(MissingBase);
        return;
      }
      if !Cacheable(init) {
        out := FromFetch(answer);
        return;
      }
      var key := CacheKey(RequestUrl(base, path), init);
      var hit := if key in entries then Some(entries[key]) else None;
      match Classify(hit, now)
      case Fresh =>
        out := Value(hit.value.value);
      case Stale =>
        if !hit.value.pending {
          entries := entries[key := hit.value.(pending := true)];
          refreshStarted := true;
        }
        out := Value(hit.value.value);
      case Miss =>
        out := FromFetch(answer);
        if answer.Ok? {
          entries := entries[key := CacheEntry(now + Ttl(opts), now + Swr(opts), answer.body, false)];
        }
    }

    /** The refresh started for `key` settles at time `t`. */
    method RefreshCompletes(key: string, t: int, ttl: int, swr: int, answer: Fetched)
      modifies this
      ensures entries == Complete(old(entries), key, t, ttl, swr, answer)
      ensures old(Valid(entries)) && ttl <= swr ==> Valid(entries)
    {
      if Valid(entries) && ttl <= swr {
        CompleteKeepsValid(entries, key, t, ttl, swr, answer);
      }
      if answer.Ok? {
        entries := entries[key := CacheEntry(t + ttl, t + swr, answer.body, false)];
      } else if key in entries {
        entries := entries[key := entries[key].(pending := false)];
      }
    }
  }

  // ------------------------------------------------------------ asset URLs

  datatype Fit = Cover | Contain | Inside | Outside

  function FitName(f: Fit): string {
    match f
    case Cover => "cover"
    case Contain => "contain"
    case Inside => "inside"
    case Outside => "outside"
  }

  /** `opts` of `directusAsset`; a number option counts only when non-zero. */
  datatype AssetOptions = AssetOptions(w: Option<int>, h: Option<int>, fit: Option<Fit>, quality: Option<int>)

  const ParamOrder: seq<string> := ["width", "height", "fit", "quality"]

  /** The query parameters set, in insertion order. */
  function AssetParams(opts: Option<AssetOptions>): (ps: seq<(string, string)>)
    ensures |ps| <= 4
  {
    if opts.None? then []
    else
      var o := opts.value;
      (if o.w.Some? && o.w.value != 0 then [("width", IntToString(o.w.value))] else []) +
      (if o.h.Some? && o.h.value != 0 then [("height", IntToString(o.h.value))] else []) +
      (if o.fit.Some? then [("fit", FitName(o.fit.value))] else []) +
      (if o.quality.Some? && o.quality.value != 0 then [("quality", IntToString(o.quality.value))] else [])
  }

  function QueryString(ps: seq<(string, string)>): string {
    Join(seq(|ps|, i requires 0 <= i < |ps| => ps[i].0 + "=" + ps[i].1), "&")
  }

  /** `directusAsset(fileId, opts)` with the configured base URL. */
  function DirectusAsset(base: string, fileId: Option<string>, opts: Option<AssetOptions>): (u: string)
    ensures fileId.None? || fileId.value == [] || base == [] ==> u == ""
  {
    if fileId.None? || fileId.value == [] then ""
    else if base == [] then ""
    else
      var qs := QueryString(AssetParams(opts));
      base + "/assets/" + fileId.value + (if qs != [] then "?" + qs else "")
  }

  function ParamRank(name: string): int {
    if name == "width" then 0 else if name == "height" then 1 else if name == "fit" then 2 else 3
  }

  function Names(ps: seq<(string, string)>): seq<string> {
    seq(|ps|, i requires 0 <= i < |ps| => ps[i].0)
  }

  /** Whether the option behind a query parameter is truthy. */
  predicate Enabled(opts: Option<AssetOptions>, name: string) {
    opts.Some? &&
    match name
    case "width" => opts.value.w.Some? && opts.value.w.value != 0
    case "height" => opts.value.h.Some? && opts.value.h.value != 0
    case "fit" => opts.value.fit.Some?
    case "quality" => opts.value.quality.Some? && opts.value.quality.value != 0
    case _ => false
  }

  /** The names of the truthy options, in the order the code sets them. */
  function EnabledNames(opts: Option<AssetOptions>): seq<string> {
    (if Enabled(opts, "width") then ["width"] else []) +
    (if Enabled(opts, "height") then ["height"] else []) +
    (if Enabled(opts, "fit") then ["fit"] else []) +
    (if Enabled(opts, "quality") then ["quality"] else [])
  }

  lemma AssetParamsNames(opts: Option<AssetOptions>)
    ensures Names(AssetParams(opts)) == EnabledNames(opts)
  {
    if opts.Some? {
      var ps := AssetParams(opts);
      var ns := EnabledNames(opts);
      assert |ps| == |ns|;
      forall i | 0 <= i < |ps| ensures ps[i].0 == ns[i] {
      }
    }
  }

  /** The query lists width, height, fit and quality in that order, each
      present exactly when its option is truthy. */
  lemma AssetParamsOrdered(opts: Option<AssetOptions>)
    ensures var ns := Names(AssetParams(opts));
      forall i, j :: 0 <= i < j < |ns| ==> ParamRank(ns[i]) < ParamRank(ns[j])
    ensures forall n :: n in ParamOrder ==> (n in Names(AssetParams(opts)) <==> Enabled(opts, n))
    ensures forall n :: n in Names(AssetParams(opts)) ==> n in ParamOrder
  {
    AssetParamsNames(opts);
  }

  /** With no truthy option the URL is the bare asset path; otherwise the
      path is followed by "?" and the query. */
  lemma DirectusAssetShape(base: string, id: string, opts: Option<AssetOptions>)
    requires base != [] && id != []
    ensures AssetParams(opts) == [] ==> DirectusAsset(base, Some(id), opts) == base + "/assets/" + id
    ensures AssetParams(opts) != [] ==>
      DirectusAsset(base, Some(id), opts) == base + "/assets/" + id + "?" + QueryString(AssetParams(opts))
  {
    var ps := AssetParams(opts);
    if ps != [] {
      assert |ps[0].0 + "=" + ps[0].1| > 0;
      assert QueryString(ps) != [] by {
        if |ps| > 1 {
          assert QueryString(ps) == ps[0].0 + "=" + ps[0].1 + "&" + QueryString(ps[1..]) by {
            var qs := seq(|ps|, i requires 0 <= i < |ps| => ps[i].0 + "=" + ps[i].1);
            assert qs[1..] == seq(|ps[1..]|, i requires 0 <= i < |ps[1..]| => ps[1..][i].0 + "=" + ps[1..][i].1);
          }
        }
      }
    }
  }
}
