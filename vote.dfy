/** The weekly track vote (src/pages/api/vote.ts): `GET` counts the stored
    votes of one week per track key and lists them by decreasing count;
    `POST` validates one vote and stores it. */
module Vote {
  import opened Common
  import opened Text

  /** One stored vote row as returned by the store (only the fields read). */
  datatype VoteRow = VoteRow(trackKey: JsValue, artist: JsValue, title: JsValue)

  /** One aggregated entry of `top`. */
  datatype Tally = Tally(trackKey: string, artist: string, title: string, count: nat)

  /** The key a row is counted under; rows whose key is empty are ignored. */
  function KeyOf(r: VoteRow): string {
    Field(r.trackKey)
  }

  /** The entry a first vote for its key creates. */
  function NewTally(r: VoteRow): (t: Tally)
    ensures t.trackKey == KeyOf(r) && t.count == 1
  {
    Tally(KeyOf(r), Field(r.artist), Field(r.title), 1)
  }

  // ------------------------------------------------------------- the tally map

  /** `map.get(k)`: the position of the entry for `k` in the map's insertion
      order, if any. */
  function Find(ts: seq<Tally>, k: string): (r: Option<nat>)
    ensures r.Some? ==> r.value < |ts| && ts[r.value].trackKey == k
    ensures r.Some? ==> forall i :: 0 <= i < r.value ==> ts[i].trackKey != k
    ensures r.None? ==> forall i :: 0 <= i < |ts| ==> ts[i].trackKey != k
  {
    if ts == [] then None
    else if ts[0].trackKey == k then Some(0)
    else match Find(ts[1..], k)
      case None => None
      case Some(j) => Some(j + 1)
  }

  /** One iteration of the aggregation loop. */
  function Add(ts: seq<Tally>, r: VoteRow): seq<Tally> {
    var k := KeyOf(r);
    if k == [] then ts
    else match Find(ts, k)
      case Some(j) => ts[j := ts[j].(count := ts[j].count + 1)]
      case None => ts + [NewTally(r)]
  }

  /** The map after all rows, as its values in insertion order. */
  function Aggregate(rows: seq<VoteRow>): seq<Tally>
    decreases |rows|
  {
    if rows == [] then [] else Add(Aggregate(rows[..|rows| - 1]), rows[|rows| - 1])
  }

  /** The aggregation loop, the map held as its values in insertion order. */
  method AggregateVotes(rows: seq<VoteRow>) returns (tallies: seq<Tally>)
    ensures tallies == Aggregate(rows)
  {
    tallies := [];
    var i := 0;
    while i < |rows|
      invariant 0 <= i <= |rows|
      invariant tallies == Aggregate(rows[..i])
    {
      AggregateStep(rows, i);
      tallies := CountVote(tallies, rows[i]);
      i := i + 1;
    }
    assert rows[..i] == rows;
  }

  /** The loop body: the row's entry is bumped, or created when the key is
      new; rows with an empty key are skipped. */
  method CountVote(ts: seq<Tally>, r: VoteRow) returns (tallies: seq<Tally>)
    ensures tallies == Add(ts, r)
  {
    tallies := ts;
    var k := KeyOf(r);
    if k != [] {
      var cur := Find(tallies, k);
      if cur.Some? {
        var j := cur.value;
        tallies := tallies[j := tallies[j].(count := tallies[j].count + 1)];
      } else {
        tallies := tallies + [NewTally(r)];
      }
    }
  }

  lemma AggregateStep(rows: seq<VoteRow>, i: nat)
    requires i < |rows|
    ensures Aggregate(rows[..i + 1]) == Add(Aggregate(rows[..i]), rows[i])
  {
    assert rows[..i + 1][..i] == rows[..i];
  }

  // ------------------------------------------------- what the aggregate holds

  /** Number of rows counted under `k`. */
  function CountKey(rows: seq<VoteRow>, k: string): nat
    decreases |rows|
  {
    if rows == [] then 0
    else CountKey(rows[..|rows| - 1], k) + (if KeyOf(rows[|rows| - 1]) == k then 1 else 0)
  }

  /** Number of rows with a non-empty key. */
  function CountKept(rows: seq<VoteRow>): nat
    decreases |rows|
  {
    if rows == [] then 0
    else CountKept(rows[..|rows| - 1]) + (if KeyOf(rows[|rows| - 1]) != [] then 1 else 0)
  }

  /** The first row counted under `k`. */
  function FirstRow(rows: seq<VoteRow>, k: string): Option<VoteRow>
    decreases |rows|
  {
    if rows == [] then None
    else match FirstRow(rows[..|rows| - 1], k)
      case Some(r) => Some(r)
      case None => if KeyOf(rows[|rows| - 1]) == k then Some(rows[|rows| - 1]) else None
  }

  /** Every entry has a non-empty key, and no key has two entries. */
  predicate DistinctKeys(ts: seq<Tally>) {
    (forall i :: 0 <= i < |ts| ==> ts[i].trackKey != []) &&
    (forall i, j :: 0 <= i < j < |ts| ==> ts[i].trackKey != ts[j].trackKey)
  }

  /** What the map holds for key `k` after `rows`. */
  predicate Describes(ts: seq<Tally>, rows: seq<VoteRow>, k: string) {
    match Find(ts, k)
    case None => k == [] || CountKey(rows, k) == 0
    case Some(j) =>
      k != [] && ts[j].count == CountKey(rows, k) && CountKey(rows, k) > 0 &&
      FirstRow(rows, k).Some? &&
      ts[j].artist == Field(FirstRow(rows, k).value.artist) &&
      ts[j].title == Field(FirstRow(rows, k).value.title)
  }

  /** The lookup only looks at keys. */
  lemma {:induction false} FindSameKeys(ts: seq<Tally>, us: seq<Tally>, k: string)
    requires |ts| == |us|
    requires forall i :: 0 <= i < |ts| ==> ts[i].trackKey == us[i].trackKey
    ensures Find(ts, k) == Find(us, k)
    decreases |ts|
  {
    if ts != [] {
      FindSameKeys(ts[1..], us[1..], k);
    }
  }

  lemma {:induction false} FindAppend(ts: seq<Tally>, t: Tally, k: string)
    requires Find(ts, t.trackKey).None?
    ensures Find(ts + [t], k) == if k == t.trackKey then Some(|ts|) else Find(ts, k)
    decreases |ts|
  {
    if ts == [] {
      assert ts + [t] == [t];
    } else {
      var u := ts + [t];
      assert u[1..] == ts[1..] + [t];
      assert u[0] == ts[0];
      if ts[0].trackKey == k {
        assert Find(u, k) == Some(0);
        assert Find(ts, k) == Some(0);
      } else {
        assert Find(ts[1..], t.trackKey).None?;
        FindAppend(ts[1..], t, k);
        FindTail(u, k);
        FindTail(ts, k);
      }
    }
  }

  lemma FindTail(ts: seq<Tally>, k: string)
    requires ts != [] && ts[0].trackKey != k
    ensures Find(ts, k) == match Find(ts[1..], k) case None => None case Some(j) => Some(j + 1)
  {
  }

  lemma AddKeepsDistinct(ts: seq<Tally>, r: VoteRow)
    requires DistinctKeys(ts)
    ensures DistinctKeys(Add(ts, r))
  {
  }

  /** Rows counted under another key leave the entry for `k` alone. */
  lemma AddOther(ts: seq<Tally>, rows: seq<VoteRow>, r: VoteRow, k: string)
    requires KeyOf(r) != k
    requires Describes(ts, rows, k)
    ensures Describes(Add(ts, r), rows + [r], k)
  {
    var rs := rows + [r];
    assert rs[..|rs| - 1] == rows;
    var us := Add(ts, r);
    if KeyOf(r) != [] {
      match Find(ts, KeyOf(r))
      case Some(j) =>
        FindSameKeys(ts, us, k);
      case None =>
        FindAppend(ts, NewTally(r), k);
    }
  }

  lemma {:induction false} FirstRowCount(rows: seq<VoteRow>, k: string)
    ensures FirstRow(rows, k).Some? <==> CountKey(rows, k) > 0
    decreases |rows|
  {
    if rows != [] {
      FirstRowCount(rows[..|rows| - 1], k);
    }
  }

  /** A row counted under `k` adds one to its entry, or creates the entry
      from this row when it is the first. */
  lemma AddSame(ts: seq<Tally>, rows: seq<VoteRow>, r: VoteRow)
    requires KeyOf(r) != []
    requires Describes(ts, rows, KeyOf(r))
    ensures Describes(Add(ts, r), rows + [r], KeyOf(r))
  {
    var k := KeyOf(r);
    var rs := rows + [r];
    assert rs[..|rs| - 1] == rows;
    var us := Add(ts, r);
    match Find(ts, k)
    case Some(j) =>
      FindSameKeys(ts, us, k);
    case None =>
      FindAppend(ts, NewTally(r), k);
      FirstRowCount(rows, k);
  }

  /** The aggregate has one entry per distinct non-empty key; its count is
      the number of rows with that key, and its artist and title are those
      of the first such row. */
  lemma {:induction false} AggregateDescribes(rows: seq<VoteRow>, k: string)
    ensures DistinctKeys(Aggregate(rows))
    ensures Describes(Aggregate(rows), rows, k)
    decreases |rows|
  {
    if rows != [] {
      var init := rows[..|rows| - 1];
      var r := rows[|rows| - 1];
      assert rows == init + [r];
      AggregateDescribes(init, k);
      AddKeepsDistinct(Aggregate(init), r);
      if KeyOf(r) != k {
        AddOther(Aggregate(init), init, r, k);
      } else if k != [] {
        AddSame(Aggregate(init), init, r);
      } else {
        assert Find(Aggregate(rows), k).None?;
      }
    }
  }

  /** Sum of the counts. */
  function Total(ts: seq<Tally>): nat
    decreases |ts|
  {
    if ts == [] then 0 else Total(ts[..|ts| - 1]) + ts[|ts| - 1].count
  }

  lemma {:induction false} TotalAppend(a: seq<Tally>, b: seq<Tally>)
    ensures Total(a + b) == Total(a) + Total(b)
    decreases |b|
  {
    if b == [] {
      assert a + b == a;
    } else {
      var c := a + b;
      var b' := b[..|b| - 1];
      assert c[..|c| - 1] == a + b';
      assert c[|c| - 1] == b[|b| - 1];
      TotalAppend(a, b');
      assert Total(c) == Total(a + b') + b[|b| - 1].count;
    }
  }

  lemma {:induction false} TotalBump(ts: seq<Tally>, j: nat)
    requires j < |ts|
    ensures Total(ts[j := ts[j].(count := ts[j].count + 1)]) == Total(ts) + 1
  {
    var us := ts[j := ts[j].(count := ts[j].count + 1)];
    assert ts == ts[..j] + [ts[j]] + ts[j + 1..];
    assert us == ts[..j] + [us[j]] + ts[j + 1..];
    TotalAppend(ts[..j] + [ts[j]], ts[j + 1..]);
    TotalAppend(ts[..j], [ts[j]]);
    TotalAppend(ts[..j] + [us[j]], ts[j + 1..]);
    TotalAppend(ts[..j], [us[j]]);
    assert Total([ts[j]]) == ts[j].count by { assert [ts[j]][..0] == []; }
    assert Total([us[j]]) == us[j].count by { assert [us[j]][..0] == []; }
  }

  /** The counts add up to the number of rows with a non-empty key. */
  lemma {:induction false} AggregateTotal(rows: seq<VoteRow>)
    ensures Total(Aggregate(rows)) == CountKept(rows)
    decreases |rows|
  {
    if rows != [] {
      var init := rows[..|rows| - 1];
      var r := rows[|rows| - 1];
      var ts := Aggregate(init);
      AggregateTotal(init);
      AddTotal(ts, r);
    }
  }

  /** Each counted row adds one to the total. */
  lemma AddTotal(ts: seq<Tally>, r: VoteRow)
    ensures Total(Add(ts, r)) == Total(ts) + (if KeyOf(r) != [] then 1 else 0)
  {
    if KeyOf(r) != [] {
      match Find(ts, KeyOf(r))
      case Some(j) =>
        TotalBump(ts, j);
      case None =>
        TotalAppend(ts, [NewTally(r)]);
        assert Total([NewTally(r)]) == 1 by { assert [NewTally(r)][..0] == []; }
    }
  }

  // ---------------------------------------------- `sort((a, b) => b.count - a.count)`

  /** Place `t` after every entry whose count is at least its own. */
  function InsertByCount(t: Tally, s: seq<Tally>): (r: seq<Tally>)
    ensures |r| == |s| + 1
    decreases |s|
  {
    if s == [] then [t]
    else if s[0].count >= t.count then [s[0]] + InsertByCount(t, s[1..])
    else [t] + s
  }

  /** A stable sort by decreasing count (insertion sort). */
  function SortByCount(ts: seq<Tally>): (r: seq<Tally>)
    ensures |r| == |ts|
    decreases |ts|
  {
    if ts == [] then []
    else InsertByCount(ts[|ts| - 1], SortByCount(ts[..|ts| - 1]))
  }

  lemma {:induction false} InsertByCountPermutes(t: Tally, s: seq<Tally>)
    ensures multiset(InsertByCount(t, s)) == multiset(s) + multiset{t}
    decreases |s|
  {
    if s != [] && s[0].count >= t.count {
      InsertByCountPermutes(t, s[1..]);
      assert s == [s[0]] + s[1..];
    }
  }

  /** The sort only reorders. */
  lemma {:induction false} SortByCountPermutes(ts: seq<Tally>)
    ensures multiset(SortByCount(ts)) == multiset(ts)
    decreases |ts|
  {
    if ts != [] {
      var init, t := ts[..|ts| - 1], ts[|ts| - 1];
      SortByCountPermutes(init);
      InsertByCountPermutes(t, SortByCount(init));
      SnocMultiset(ts);
    }
  }

  lemma SnocMultiset(ts: seq<Tally>)
    requires ts != []
    ensures multiset(ts) == multiset(ts[..|ts| - 1]) + multiset{ts[|ts| - 1]}
  {
    assert ts == ts[..|ts| - 1] + [ts[|ts| - 1]];
  }

  predicate ByCountDesc(s: seq<Tally>) {
    forall i, j :: 0 <= i < j < |s| ==> s[i].count >= s[j].count
  }

  /** The entries with count `c`, in order. */
  function WithCount(s: seq<Tally>, c: nat): seq<Tally>
    decreases |s|
  {
    if s == [] then []
    else (if s[0].count == c then [s[0]] else []) + WithCount(s[1..], c)
  }

  lemma {:induction false} WithCountAppend(a: seq<Tally>, b: seq<Tally>, c: nat)
    ensures WithCount(a + b, c) == WithCount(a, c) + WithCount(b, c)
    decreases |a|
  {
    if a == [] {
      assert a + b == b;
    } else {
      assert (a + b)[1..] == a[1..] + b;
      assert [a[0]] + (a[1..] + b) == a + b;
      WithCountAppend(a[1..], b, c);
      WithCountCons(a[0], a[1..] + b, c);
      WithCountCons(a[0], a[1..], c);
      assert [a[0]] + a[1..] == a;
      AppendAssoc(if a[0].count == c then [a[0]] else [], WithCount(a[1..], c), WithCount(b, c));
    }
  }

  lemma AppendAssoc(a: seq<Tally>, b: seq<Tally>, c: seq<Tally>)
    ensures a + (b + c) == (a + b) + c
  {
  }

  lemma WithCountCons(x: Tally, r: seq<Tally>, c: nat)
    ensures WithCount([x] + r, c) == (if x.count == c then [x] else []) + WithCount(r, c)
  {
    assert ([x] + r)[1..] == r;
  }

  lemma {:induction false} WithCountNone(s: seq<Tally>, c: nat)
    requires forall i :: 0 <= i < |s| ==> s[i].count < c
    ensures WithCount(s, c) == []
    decreases |s|
  {
    if s != [] {
      WithCountNone(s[1..], c);
    }
  }

  /** Inserting into a list sorted by decreasing count keeps it sorted; the
      head is the old head unless `t` has a larger count. */
  lemma {:induction false} InsertByCountOrdered(t: Tally, s: seq<Tally>)
    requires ByCountDesc(s)
    ensures ByCountDesc(InsertByCount(t, s))
    ensures InsertByCount(t, s)[0] == if s != [] && s[0].count >= t.count then s[0] else t
    decreases |s|
  {
    if s != [] && s[0].count >= t.count {
      var r := InsertByCount(t, s[1..]);
      InsertByCountOrdered(t, s[1..]);
      assert r[0].count <= s[0].count;
      var u := [s[0]] + r;
      forall i, j | 0 <= i < j < |u| ensures u[i].count >= u[j].count {
        if i == 0 {
          assert u[j] == r[j - 1];
          assert r[j - 1].count <= r[0].count;
        } else {
          assert u[i] == r[i - 1] && u[j] == r[j - 1];
        }
      }
    }
  }

  /** Inserting `t` adds it after the entries of its own count. */
  lemma {:induction false} InsertByCountWithCount(t: Tally, s: seq<Tally>, c: nat)
    requires ByCountDesc(s)
    ensures WithCount(InsertByCount(t, s), c) == WithCount(s, c) + (if t.count == c then [t] else [])
    decreases |s|
  {
    if s == [] {
      assert [t][1..] == [];
    } else if s[0].count >= t.count {
      var r := InsertByCount(t, s[1..]);
      assert InsertByCount(t, s) == [s[0]] + r;
      InsertByCountWithCount(t, s[1..], c);
      WithCountCons(s[0], r, c);
      WithCountCons(s[0], s[1..], c);
      assert [s[0]] + s[1..] == s;
      var h := if s[0].count == c then [s[0]] else [];
      AppendAssoc(h, WithCount(s[1..], c), if t.count == c then [t] else []);
    } else {
      assert ([t] + s)[1..] == s;
      if t.count == c {
        WithCountNone(s, c);
      }
    }
  }

  /** The sort orders by decreasing count. */
  lemma {:induction false} SortByCountOrdered(ts: seq<Tally>)
    ensures ByCountDesc(SortByCount(ts))
    decreases |ts|
  {
    if ts != [] {
      SortByCountOrdered(ts[..|ts| - 1]);
      InsertByCountOrdered(ts[|ts| - 1], SortByCount(ts[..|ts| - 1]));
    }
  }

  /** The sort is stable: the entries with any one count keep their
      relative order. */
  lemma {:induction false} SortByCountStable(ts: seq<Tally>, c: nat)
    ensures WithCount(SortByCount(ts), c) == WithCount(ts, c)
    decreases |ts|
  {
    if ts != [] {
      var init := ts[..|ts| - 1];
      var t := ts[|ts| - 1];
      SortByCountStable(init, c);
      SortByCountOrdered(init);
      InsertByCountWithCount(t, SortByCount(init), c);
      assert ts == init + [t];
      WithCountAppend(init, [t], c);
      assert WithCount([t], c) == (if t.count == c then [t] else []) by {
        assert [t][1..] == [];
      }
    }
  }

  // ------------------------------------------------------------ the endpoints

  /** The store's base URL and the votes token. */
  datatype Env = Env(url: string, token: string)

  /** What `dFetch` gives back: a thrown error, a non-OK response with its
      text, or an OK response (for `GET`, the rows when `data` is an array). */
  datatype StoreReply = Threw(message: string) | NotOk(status: int, text: string) | Answered(data: Option<seq<VoteRow>>)

  datatype Body = Error(message: string) | Top(week: string, top: seq<Tally>) | Done

  datatype Response = Response(status: int, body: Body)

  /** The outcome of a request: the response and the store call made, if any
      (for `GET` the week queried, for `POST` the vote sent). */
  datatype Handled<T> = Handled(response: Response, call: Option<T>)

  /** `assertEnv`, which `dFetch` runs first. */
  function EnvError(env: Env): Option<string> {
    if env.url == [] then Some("DIRECTUS_URL is missing")
    else if env.token == [] then Some("DIRECTUS_VOTES_TOKEN is missing")
    else None
  }

  /** The `catch` branch: the error's message, or a fixed text. */
  function ServerError(message: string): (r: Response)
    ensures r.status == 500 && r.body.Error? && r.body.message != []
  {
    Response(500, Error(if message != [] then message else "Server error"))
  }

  /** `(url.searchParams.get("week") || "").trim()`. */
  function WeekOf(weekParam: Option<string>): string {
    Trim(if weekParam.Some? then weekParam.value else "")
  }

  /** `GET /api/vote?week=…` given the query parameter and the store's reply. */
  function Get(env: Env, weekParam: Option<string>, store: StoreReply): (h: Handled<string>)
    ensures WeekOf(weekParam) == [] ==> h == Handled(Response(400, Error("Missing week")), None)
    ensures WeekOf(weekParam) != [] && EnvError(env).Some? ==> h == Handled(ServerError(EnvError(env).value), None)
    ensures h.call.Some? <==> WeekOf(weekParam) != [] && EnvError(env).None?
    ensures h.call.Some? ==> h.call.value == WeekOf(weekParam)
    ensures h.response.body.Top? <==> h.call.Some? && store.Answered?
    ensures h.response.body.Top? ==> h.response.status == 200 && h.response.body.week == WeekOf(weekParam)
    ensures h.response.body.Top? ==>
      h.response.body.top == SortByCount(Aggregate(if store.data.Some? then store.data.value else []))
    ensures h.call.Some? && store.NotOk? ==>
      h.response == Response(store.status, Error("Directus GET failed: " + store.text))
    ensures h.call.Some? && store.Threw? ==> h.response == ServerError(store.message)
  {
    var week := WeekOf(weekParam);
    if week == [] then Handled(Response(400, Error("Missing week")), None)
    else if EnvError(env).Some? then Handled(ServerError(EnvError(env).value), None)
    else
      var r := match store
        case Threw(m) => ServerError(m)
        case NotOk(status, text) => Response(status, Error("Directus GET failed: " + text))
        case Answered(data) =>
          var rows := if data.Some? then data.value else [];
          Response(200, Top(week, SortByCount(Aggregate(rows))));
      Handled(r, Some(week))
  }

  /** The JSON body of a `POST` (only the fields read). */
  datatype VoteInput = VoteInput(week: JsValue, trackKey: JsValue, artist: JsValue, title: JsValue)

  /** The row written to the store. */
  datatype NewVote = NewVote(week: string, trackKey: string, artist: string, title: string)

  /** The body fields read, `body?.x` giving `undefined` when the body is
      not JSON. */
  function InputOf(body: Option<VoteInput>): VoteInput {
    if body.Some? then body.value else VoteInput(Undefined, Undefined, Undefined, Undefined)
  }

  /** `POST /api/vote`; `body` is `None` when the request is not JSON. */
  function Post(env: Env, body: Option<VoteInput>, store: StoreReply): (h: Handled<NewVote>)
    ensures Field(InputOf(body).week) == [] ==> h == Handled(Response(400, Error("Missing week")), None)
    ensures Field(InputOf(body).week) != [] && Field(InputOf(body).trackKey) == [] ==>
      h == Handled(Response(400, Error("Missing track_key")), None)
    ensures h.call.Some? <==> Field(InputOf(body).week) != [] && Field(InputOf(body).trackKey) != [] && EnvError(env).None?
    ensures h.call.Some? ==> var b := InputOf(body);
      h.call.value == NewVote(Field(b.week), Field(b.trackKey), Field(b.artist), Field(b.title))
    ensures h.response.body.Done? <==> h.call.Some? && store.Answered?
    ensures h.response.body.Done? ==> h.response.status == 200
    ensures h.call.Some? && store.NotOk? ==>
      h.response == Response(store.status, Error("Directus POST failed: " + store.text))
    ensures h.call.Some? && store.Threw? ==> h.response == ServerError(store.message)
  {
    var b := InputOf(body);
    var week, key := Field(b.week), Field(b.trackKey);
    if week == [] then Handled(Response(400, Error("Missing week")), None)
    else if key == [] then Handled(Response(400, Error("Missing track_key")), None)
    else if EnvError(env).Some? then Handled(ServerError(EnvError(env).value), None)
    else
      var sent := NewVote(week, key, Field(b.artist), Field(b.title));
      var r := match store
        case Threw(m) => ServerError(m)
        case NotOk(status, text) => Response(status, Error("Directus POST failed: " + text))
        case Answered(_) => Response(200, Done);
      Handled(r, Some(sent))
  }
}
