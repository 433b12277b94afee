/** scripts/import-news-directus.mjs: the `.env` loader, the start-up
    configuration, `guessMime`, the payload sent for one news item, and the
    create/update/skip walk of `main` over the cleaned items. The Directus
    store is the set of slugs it already holds; reading files, uploading
    covers and the HTTP calls are outside the model, and the upload outcome
    of each item is a parameter. */
module NewsImport {
  import opened Common
  import opened Text
  import NewsClean

  // ------------------------------------------------------------- the .env

  /** A piece of `split(/\r?\n/)`: the `\r` before a newline goes with the
      separator. */
  function DropCR(s: string): (r: string)
    ensures r == s || (s == r + "\r")
  {
    if s != [] && s[|s| - 1] == '\r' then s[..|s| - 1] else s
  }

  /** The lines of the file. */
  function EnvLines(txt: string): (lines: seq<string>)
    ensures |lines| == |Split(txt, "\n")|
    ensures forall i :: 0 <= i < |lines| ==> lines[i] == DropCR(Split(txt, "\n")[i])
  {
    var parts := Split(txt, "\n");
    seq(|parts|, i requires 0 <= i < |parts| => DropCR(parts[i]))
  }

  predicate IsEquals(c: char) {
    c == '='
  }

  /** One line: blank lines, `#` comments and lines without `=` set nothing;
      otherwise the key is the trimmed text before the first `=` and the
      value the trimmed rest. */
  function ParseEnvLine(line: string): Option<(string, string)> {
    var l := Trim(line);
    if l == [] || l[0] == '#' then None
    else
      var i := RunUntil(l, 0, IsEquals);
      if i == |l| then None else Some((Trim(l[..i]), Trim(l[i + 1..])))
  }

  /** A line sets nothing exactly when, trimmed, it is blank, a comment or
      holds no `=`; otherwise it splits at its first `=` into the text of
      the key and the text of the value, each then trimmed. */
  lemma ParseEnvLineFacts(line: string)
    ensures var l := Trim(line);
      ParseEnvLine(line).None? <==> (l == [] || l[0] == '#' || '=' !in l)
    ensures ParseEnvLine(line).Some? ==>
      var (k, v) := ParseEnvLine(line).value;
      IsTrimmed(k) && IsTrimmed(v) && '=' !in k &&
      exists a: string, b: string :: Trim(line) == a + "=" + b && '=' !in a && k == Trim(a) && v == Trim(b)
  {
    var l := Trim(line);
    if l != [] && l[0] != '#' {
      var i := RunUntil(l, 0, IsEquals);
      if i == |l| {
        assert '=' !in l;
      } else {
        assert l == l[..i] + "=" + l[i + 1..];
        assert '=' !in l[..i];
        TrimKeeps(l[..i], c => c != '=');
      }
    }
  }

  /** Writing a key and a value as `key=value` and reading the line back
      gives them again, for a trimmed key that holds no `=` and does not
      start with `#`, and a trimmed value. */
  lemma ParseEnvLineRoundTrip(k: string, v: string)
    requires IsTrimmed(k) && IsTrimmed(v) && '=' !in k && (k == [] || k[0] != '#')
    ensures ParseEnvLine(k + "=" + v) == Some((k, v))
  {
    var l := k + "=" + v;
    assert IsTrimmed(l);
    TrimOfTrimmed(l);
    assert l[|k|] == '=';
    RunUntilAt(l, 0, |k|, IsEquals);
    assert l[..|k|] == k && l[|k| + 1..] == v;
    TrimOfTrimmed(k);
    TrimOfTrimmed(v);
  }

  /** `if (!process.env[k]) process.env[k] = v`: an unset or empty variable
      takes the value, a non-empty one is kept. */
  function SetIfEmpty(env: map<string, string>, line: string): map<string, string> {
    match ParseEnvLine(line)
    case None => env
    case Some((k, v)) => if k in env && env[k] != "" then env else env[k := v]
  }

  /** The environment after the lines, in file order. */
  function Loaded(env: map<string, string>, lines: seq<string>): map<string, string>
    decreases |lines|
  {
    if lines == [] then env else Loaded(SetIfEmpty(env, lines[0]), lines[1..])
  }

  /** A variable that already has a non-empty value is never overwritten. */
  lemma {:induction false} LoadedKeeps(env: map<string, string>, lines: seq<string>, k: string)
    requires k in env && env[k] != ""
    ensures k in Loaded(env, lines) && Loaded(env, lines)[k] == env[k]
    decreases |lines|
  {
    if lines != [] {
      LoadedKeeps(SetIfEmpty(env, lines[0]), lines[1..], k);
    }
  }

  /** Every variable afterwards was there before, unchanged, or comes from a
      line of the file that sets it to its value; and every key a line
      sets is defined afterwards. */
  lemma {:induction false} LoadedFrom(env: map<string, string>, lines: seq<string>, k: string)
    ensures k in Loaded(env, lines) <==> k in env || exists i :: 0 <= i < |lines| && ParseEnvLine(lines[i]).Some? && ParseEnvLine(lines[i]).value.0 == k
    ensures k in Loaded(env, lines) ==>
      (k in env && Loaded(env, lines)[k] == env[k]) ||
      exists i :: 0 <= i < |lines| && ParseEnvLine(lines[i]) == Some((k, Loaded(env, lines)[k]))
    decreases |lines|
  {
    if lines != [] {
      var env' := SetIfEmpty(env, lines[0]);
      LoadedFrom(env', lines[1..], k);
      forall i | 0 <= i < |lines| - 1 ensures lines[1..][i] == lines[i + 1] {
      }
      if k in Loaded(env, lines) && !(k in env && Loaded(env, lines)[k] == env[k]) {
        if k in env' && Loaded(env', lines[1..])[k] == env'[k] {
          assert ParseEnvLine(lines[0]) == Some((k, env'[k]));
        }
      }
    }
  }

  /** For an unset or empty variable, the first line that sets it to a
      non-empty value decides it. */
  lemma {:induction false} LoadedFirstWins(env: map<string, string>, lines: seq<string>, k: string, i: nat, v: string)
    requires k !in env || env[k] == ""
    requires i < |lines| && ParseEnvLine(lines[i]) == Some((k, v)) && v != ""
    requires forall j :: 0 <= j < i ==> !(ParseEnvLine(lines[j]).Some? && ParseEnvLine(lines[j]).value.0 == k && ParseEnvLine(lines[j]).value.1 != "")
    ensures k in Loaded(env, lines) && Loaded(env, lines)[k] == v
    decreases |lines|
  {
    var env' := SetIfEmpty(env, lines[0]);
    if i == 0 {
      LoadedKeeps(env', lines[1..], k);
    } else {
      forall j | 0 <= j < i - 1 ensures lines[1..][j] == lines[j + 1] {
      }
      LoadedFirstWins(env', lines[1..], k, i - 1, v);
    }
  }

  /** `process.env`, which the loader writes. */
  class Environment {
    var vars: map<string, string>

    constructor(initial: map<string, string>)
      ensures vars == initial
    {
      vars := initial;
    }

    /** `loadDotEnv`: nothing happens without a `.env` file; otherwise each
        line in turn may set one variable. */
    method LoadDotEnv(file: Option<string>)
      modifies this
      ensures file.None? ==> vars == old(vars)
      ensures file.Some? ==> vars == Loaded(old(vars), EnvLines(file.value))
    {
      if file.None? {
        return;
      }
      var lines := EnvLines(file.value);
      var n := 0;
      while n < |lines|
        invariant 0 <= n <= |lines|
        invariant Loaded(vars, lines[n..]) == Loaded(old(vars), lines)
      {
        assert lines[n..][1..] == lines[n + 1..];
        var parsed := ParseEnvLine(lines[n]);
        if parsed.Some? {
          var (k, v) := parsed.value;
          if !(k in vars && vars[k] != "") {
            vars := vars[k := v];
          }
        }
        n := n + 1;
      }
    }
  }

  // -------------------------------------------------------- configuration

  datatype Config = Config(url: string, token: string, collection: string)

  /** Start-up: `mustEnv` ends the script at the first of `DIRECTUS_URL`
      and `DIRECTUS_TOKEN` that is unset or empty. */
  datatype Startup = Ready(config: Config) | MissingEnv(name: string)

  predicate Present(env: map<string, string>, name: string) {
    name in env && env[name] != ""
  }

  /** The trailing `/` run of the URL is removed, and the collection
      defaults to `news`. */
  function Setup(env: map<string, string>): Startup {
    if !Present(env, "DIRECTUS_URL") then MissingEnv("DIRECTUS_URL")
    else if !Present(env, "DIRECTUS_TOKEN") then MissingEnv("DIRECTUS_TOKEN")
    else
      var collection := if Present(env, "DIRECTUS_COLLECTION") then env["DIRECTUS_COLLECTION"] else "news";
      Ready(Config(DropTrailing(env["DIRECTUS_URL"], '/'), env["DIRECTUS_TOKEN"], collection))
  }

  /** The URL is checked before the token; a ready configuration has a URL
      that is the configured one without its trailing slashes, and ends in
      no slash. */
  lemma SetupFacts(env: map<string, string>)
    ensures Setup(env) == MissingEnv("DIRECTUS_URL") <==> !Present(env, "DIRECTUS_URL")
    ensures Setup(env) == MissingEnv("DIRECTUS_TOKEN") <==> Present(env, "DIRECTUS_URL") && !Present(env, "DIRECTUS_TOKEN")
    ensures Setup(env).Ready? ==>
      var c := Setup(env).config; var raw := env["DIRECTUS_URL"];
      raw == c.url + raw[|c.url|..] && (forall i :: |c.url| <= i < |raw| ==> raw[i] == '/') &&
      (c.url == [] || c.url[|c.url| - 1] != '/') &&
      DropTrailing(c.url, '/') == c.url &&
      c.token == env["DIRECTUS_TOKEN"] && c.collection != ""
  {
    if Setup(env).Ready? {
      var raw := env["DIRECTUS_URL"];
      var u := DropTrailing(raw, '/');
      DropTrailingIdempotent(raw, '/');
      assert raw == u + raw[|u|..];
    }
  }

  // ------------------------------------------------------------ guessMime

  const OctetStream := "application/octet-stream"

  /** `guessMime`: the MIME type of a file extension, ignoring case. */
  function GuessMime(ext: string): string {
    var e := Lower(ext);
    if e == ".jpg" || e == ".jpeg" then "image/jpeg"
    else if e == ".png" then "image/png"
    else if e == ".webp" then "image/webp"
    else if e == ".gif" then "image/gif"
    else OctetStream
  }

  /** Lower case is unchanged by first going to upper case. */
  lemma LowerOfUpper(s: string)
    ensures Lower(Upper(s)) == Lower(s)
  {
    forall i | 0 <= i < |s| ensures Lower(Upper(s))[i] == Lower(s)[i] {
      assert Upper(s)[i] == UpperChar(s[i]);
    }
  }

  /** The extension's letter case does not matter. */
  lemma GuessMimeIgnoresCase(ext: string)
    ensures GuessMime(Upper(ext)) == GuessMime(ext)
  {
    LowerOfUpper(ext);
  }

  /** Anything that is not a dot followed by three or four characters is
      not a known image type. */
  lemma GuessMimeOther(ext: string)
    ensures |ext| < 4 || |ext| > 5 ==> GuessMime(ext) == OctetStream
    ensures ext == [] || ext[0] != '.' ==> GuessMime(ext) == OctetStream
  {
    var e := Lower(ext);
    if ext != [] && ext[0] != '.' {
      assert e[0] != '.';
      assert e != ".jpg" && e != ".jpeg" && e != ".png" && e != ".webp" && e != ".gif" by {
        assert ".jpg"[0] == '.' && ".jpeg"[0] == '.' && ".png"[0] == '.' && ".webp"[0] == '.' && ".gif"[0] == '.';
      }
    }
  }

  // -------------------------------------------------------------- payload

  /** `mapItemToDirectusPayload`: the fields of the collection, with `""`
      for a missing text field and `null` for a missing date; `cover` only
      when a file id was obtained. */
  function Payload(it: NewsClean.Item, coverId: JsValue): map<string, JsValue> {
    var p := map[
      "title" := Or(NewsClean.Field(it, "title"), Str("")),
      "slug" := Or(NewsClean.Field(it, "slug"), Str("")),
      "excerpt" := Or(NewsClean.Field(it, "excerpt"), Str("")),
      "content" := Or(NewsClean.Field(it, "content_html"), Str("")),
      "published_at" := Or(NewsClean.Field(it, "published_at"), Null),
      "status" := Str("published")];
    if Truthy(coverId) then p["cover" := coverId] else p
  }

  /** The payload has exactly the six fields, plus `cover` when a file id
      was obtained; it is always published; a field is truthy exactly when
      the item's field is, and then is that field. */
  lemma PayloadFacts(it: NewsClean.Item, coverId: JsValue)
    ensures var p := Payload(it, coverId);
      p.Keys == {"title", "slug", "excerpt", "content", "published_at", "status"} + (if Truthy(coverId) then {"cover"} else {})
    ensures Payload(it, coverId)["status"] == Str("published")
    ensures Truthy(coverId) ==> Payload(it, coverId)["cover"] == coverId
    ensures forall k :: k in ["title", "slug", "excerpt"] ==>
      (Truthy(NewsClean.Field(it, k)) ==> Payload(it, coverId)[k] == NewsClean.Field(it, k)) &&
      (!Truthy(NewsClean.Field(it, k)) ==> Payload(it, coverId)[k] == Str(""))
    ensures Truthy(NewsClean.Field(it, "content_html")) ==> Payload(it, coverId)["content"] == NewsClean.Field(it, "content_html")
    ensures !Truthy(NewsClean.Field(it, "content_html")) ==> Payload(it, coverId)["content"] == Str("")
    ensures !Truthy(NewsClean.Field(it, "published_at")) ==> Payload(it, coverId)["published_at"] == Null
  {
  }

  /** `uploadCoverIfExists` as far as the model sees it: no `cover_local`
      means no upload; otherwise the upload's outcome `uploaded`, where a
      missing file, a failed upload or a response without an id is a falsy
      value, and a falsy outcome becomes `null`. */
  function CoverId(it: NewsClean.Item, uploaded: JsValue): (r: JsValue)
    ensures !Truthy(NewsClean.Field(it, "cover_local")) ==> r == Null
    ensures Truthy(r) ==> r == uploaded
  {
    if !Truthy(NewsClean.Field(it, "cover_local")) then Null else Or(uploaded, Null)
  }

  // ----------------------------------------------------------------- main

  /** What `main` does with one item. */
  datatype Action = Skip | Create(payload: map<string, JsValue>) | Update(slug: string, payload: map<string, JsValue>)

  /** The slug an item is looked up by: its `slug` field as a string. */
  function SlugKey(it: NewsClean.Item): string {
    ToStr(NewsClean.Field(it, "slug"))
  }

  /** The decision for one item, given the slugs the store holds: no slug
      means a skip; a slug the store holds means an update of that item;
      any other slug means a creation, after which the store holds it. */
  function Decide(it: NewsClean.Item, uploaded: JsValue, known: set<string>): (Action, set<string>) {
    if !Truthy(NewsClean.Field(it, "slug")) then (Skip, known)
    else
      var p := Payload(it, CoverId(it, uploaded));
      if SlugKey(it) in known then (Update(SlugKey(it), p), known)
      else (Create(p), known + {SlugKey(it)})
  }

  /** The walk of `main` over the items, in order. */
  function Plan(items: seq<NewsClean.Item>, uploads: seq<JsValue>, known: set<string>): (acts: seq<Action>)
    requires |uploads| == |items|
    ensures |acts| == |items|
    decreases |items|
  {
    if items == [] then []
    else
      var (a, known') := Decide(items[0], uploads[0], known);
      [a] + Plan(items[1..], uploads[1..], known')
  }

  function CountCreated(acts: seq<Action>): nat {
    if acts == [] then 0 else (if acts[0].Create? then 1 else 0) + CountCreated(acts[1..])
  }

  function CountUpdated(acts: seq<Action>): nat {
    if acts == [] then 0 else (if acts[0].Update? then 1 else 0) + CountUpdated(acts[1..])
  }

  function CountSkipped(acts: seq<Action>): nat {
    if acts == [] then 0 else (if acts[0].Skip? then 1 else 0) + CountSkipped(acts[1..])
  }

  lemma {:induction false} CountsAdd(acts: seq<Action>)
    ensures CountCreated(acts) + CountUpdated(acts) + CountSkipped(acts) == |acts|
  {
    if acts != [] {
      CountsAdd(acts[1..]);
    }
  }

  lemma {:induction false} CountsAppend(a: seq<Action>, b: seq<Action>)
    ensures CountCreated(a + b) == CountCreated(a) + CountCreated(b)
    ensures CountUpdated(a + b) == CountUpdated(a) + CountUpdated(b)
    ensures CountSkipped(a + b) == CountSkipped(a) + CountSkipped(b)
  {
    if a == [] {
      assert a + b == b;
    } else {
      CountsAppend(a[1..], b);
      assert (a + b)[0] == a[0];
      assert (a + b)[1..] == a[1..] + b;
    }
  }

  /** The slugs earlier items added to the store. */
  function SlugsBefore(items: seq<NewsClean.Item>, n: nat): set<string>
    requires n <= |items|
  {
    set i | 0 <= i < n && Truthy(NewsClean.Field(items[i], "slug")) :: SlugKey(items[i])
  }

  /** Item `i` is skipped exactly when it has no slug; it is created exactly
      when its slug is neither in the store at the start nor the slug of an
      earlier item; otherwise it is updated. */
  lemma {:induction false} PlanAction(items: seq<NewsClean.Item>, uploads: seq<JsValue>, known: set<string>, i: nat)
    requires |uploads| == |items| && i < |items|
    ensures var a := Plan(items, uploads, known)[i];
      (a.Skip? <==> !Truthy(NewsClean.Field(items[i], "slug"))) &&
      (a.Create? <==> Truthy(NewsClean.Field(items[i], "slug")) && SlugKey(items[i]) !in known + SlugsBefore(items, i)) &&
      (a.Update? ==> a.slug == SlugKey(items[i]))
    ensures !Plan(items, uploads, known)[i].Skip? ==>
      Plan(items, uploads, known)[i].payload == Payload(items[i], CoverId(items[i], uploads[i]))
    decreases |items|
  {
    var it := items[0];
    var (a, known') := Decide(it, uploads[0], known);
    assert known' == known + SlugsBefore(items, 1);
    if i > 0 {
      assert Plan(items, uploads, known)[i] == Plan(items[1..], uploads[1..], known')[i - 1];
      assert items[1..][i - 1] == items[i] && uploads[1..][i - 1] == uploads[i];
      PlanAction(items[1..], uploads[1..], known', i - 1);
      SlugsShift(items, i);
    }
  }

  lemma SlugsShift(items: seq<NewsClean.Item>, i: nat)
    requires 0 < i <= |items|
    ensures SlugsBefore(items, i) == SlugsBefore(items, 1) + SlugsBefore(items[1..], i - 1)
  {
    var rest := items[1..];
    forall s | s in SlugsBefore(items, i) ensures s in SlugsBefore(items, 1) + SlugsBefore(rest, i - 1) {
      var j :| 0 <= j < i && Truthy(NewsClean.Field(items[j], "slug")) && SlugKey(items[j]) == s;
      if j > 0 {
        assert rest[j - 1] == items[j];
      }
    }
    forall s | s in SlugsBefore(rest, i - 1) ensures s in SlugsBefore(items, i) {
      var j :| 0 <= j < i - 1 && Truthy(NewsClean.Field(rest[j], "slug")) && SlugKey(rest[j]) == s;
      assert rest[j] == items[j + 1];
    }
  }

  /** `main`'s loop: one store lookup per item with a slug, and the three
      counters. */
  method ImportNews(items: seq<NewsClean.Item>, uploads: seq<JsValue>, known: set<string>)
    returns (created: nat, updated: nat, skipped: nat, acts: seq<Action>)
    requires |uploads| == |items|
    ensures acts == Plan(items, uploads, known)
    ensures created == CountCreated(acts) && updated == CountUpdated(acts) && skipped == CountSkipped(acts)
    ensures created + updated + skipped == |items|
  {
    created, updated, skipped, acts := 0, 0, 0, [];
    var store := known;
    var n := 0;
    while n < |items|
      invariant 0 <= n <= |items|
      invariant acts + Plan(items[n..], uploads[n..], store) == Plan(items, uploads, known)
      invariant created == CountCreated(acts) && updated == CountUpdated(acts) && skipped == CountSkipped(acts)
      invariant |acts| == n
    {
      assert items[n..][1..] == items[n + 1..] && uploads[n..][1..] == uploads[n + 1..];
      var (a, store') := Decide(items[n], uploads[n], store);
      match a {
        case Skip => skipped := skipped + 1;
        case Update(_, _) => updated := updated + 1;
        case Create(_) => created := created + 1;
      }
      store := store';
      CountsAppend(acts, [a]);
      acts := acts + [a];
      n := n + 1;
    }
    CountsAdd(acts);
  }
}
