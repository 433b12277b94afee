/** The DJ casting form handler (src/pages/api/dj-casting.ts): an ordered chain
    of early returns over trimmed form fields, then one write to the store. */
module DjCasting {
  import opened Common
  import opened Text

  /** The fields of the posted JSON object; absent ones are `Undefined`. */
  datatype CastingBody = CastingBody(
    name: JsValue, email: JsValue, countryCode: JsValue, mixLink: JsValue,
    facebook: JsValue, instagram: JsValue, soundcloud: JsValue, mixcloud: JsValue,
    youtube: JsValue, x: JsValue, website: JsValue,
    message: JsValue, company: JsValue)

  /** What `request.json()` produced: a parse failure, the literal `null`
      (reading a field of it throws), or a value whose fields can be read.
      Any non-object JSON value reads as an object whose fields are all
      absent. */
  datatype Parsed = NotJson | JsonNull | Object(body: CastingBody)

  /** The environment: `DIRECTUS_URL || PUBLIC_DIRECTUS_URL`, the token and the
      optional collection name; an unset variable is the empty string. */
  datatype Env = Env(directusUrl: string, publicDirectusUrl: string, token: string, collection: string)

  /** The seven social links, in the order of the object literal that
      `Object.values` walks. */
  datatype Socials = Socials(facebook: string, instagram: string, x: string, website: string,
                             soundcloud: string, mixcloud: string, youtube: string)

  datatype Payload = Payload(name: string, email: string, countryCode: Option<string>,
                             mixLink: string, socials: Socials, message: Option<string>)

  /** The write sent to the store. */
  datatype Request = Request(url: string, token: string, payload: Payload)

  /** The store's answer: accepted, rejected with a response text (a text that
      cannot be read is `""`), or a `fetch` that throws. */
  datatype StoreReply = Accepted | Rejected(text: string) | FetchThrew

  datatype Body = Ok | Error(error: string, details: Option<string>)

  /** A JSON response, or an exception that escapes the handler. */
  datatype Reply = Reply(status: int, body: Body) | Uncaught

  datatype Handled = Handled(reply: Reply, call: Option<Request>)

  /** The protocol that WHATWG `new URL(s)` reports, or `None` when it throws;
      URL parsing itself is not modelled. */
  type UrlProtocol = string -> Option<string>

  /** `isUrlLike`: blank, or an absolute `http:`/`https:` URL. */
  predicate IsUrlLike(s: string, protocol: UrlProtocol) {
    Trim(s) == [] || protocol(s) == Some("http:") || protocol(s) == Some("https:")
  }

  function BaseUrl(env: Env): string {
    if env.directusUrl != [] then env.directusUrl else env.publicDirectusUrl
  }

  function Collection(env: Env): string {
    if env.collection != [] then env.collection else "dj_casting"
  }

  /** The items endpoint: the base URL without trailing slashes. */
  function ItemsUrl(env: Env): (r: string)
    ensures r == DropTrailing(BaseUrl(env), '/') + "/items/" + Collection(env)
    ensures var b := DropTrailing(BaseUrl(env), '/'); b == [] || b[|b| - 1] != '/'
  {
    DropTrailing(BaseUrl(env), '/') + "/items/" + Collection(env)
  }

  function SocialsOf(b: CastingBody): Socials {
    Socials(Field(b.facebook), Field(b.instagram), Field(b.x), Field(b.website),
            Field(b.soundcloud), Field(b.mixcloud), Field(b.youtube))
  }

  function SocialList(s: Socials): seq<string> {
    [s.facebook, s.instagram, s.x, s.website, s.soundcloud, s.mixcloud, s.youtube]
  }

  /** The honeypot: a bot filled the hidden `company` field. */
  predicate Honeypot(b: CastingBody) {
    Field(b.company) != []
  }

  predicate MissingRequired(b: CastingBody) {
    Field(b.name) == [] || Field(b.email) == [] || Field(b.mixLink) == []
  }

  predicate HasSocial(b: CastingBody) {
    exists i :: 0 <= i < 7 && SocialList(SocialsOf(b))[i] != []
  }

  /** `mix_link` followed by the seven socials, all checked by `isUrlLike`. */
  function UrlFields(b: CastingBody): seq<string> {
    [Field(b.mixLink)] + SocialList(SocialsOf(b))
  }

  predicate AllUrlLike(b: CastingBody, protocol: UrlProtocol) {
    forall i :: 0 <= i < |UrlFields(b)| ==> IsUrlLike(UrlFields(b)[i], protocol)
  }

  /** `country_code`: trimmed, upper-cased, cut to two characters; empty
      becomes `null`. */
  function CountryCode(v: JsValue): (r: Option<string>)
    ensures r.None? <==> Field(v) == []
    ensures r.Some? ==> 1 <= |r.value| <= 2 && |r.value| <= |Field(v)| && r.value == Upper(Field(v))[..|r.value|]
    ensures r.Some? && |Field(v)| >= 2 ==> |r.value| == 2
  {
    var c := SliceTo(Upper(Field(v)), 2);
    if c == [] then None else Some(c)
  }

  /** `message`: trimmed and cut to 1200 characters; empty becomes `null`. */
  function Message(v: JsValue): (r: Option<string>)
    ensures r.None? <==> Field(v) == []
    ensures r.Some? ==> 1 <= |r.value| <= 1200 && |r.value| <= |Field(v)| && r.value == Field(v)[..|r.value|]
    ensures r.Some? && |Field(v)| <= 1200 ==> r.value == Field(v)
  {
    var m := SliceTo(Field(v), 1200);
    if m == [] then None else Some(m)
  }

  function PayloadOf(b: CastingBody): Payload {
    Payload(Field(b.name), Field(b.email), CountryCode(b.countryCode),
            Field(b.mixLink), SocialsOf(b), Message(b.message))
  }

  function Fail(status: int, error: string): Handled {
    Handled(Reply(status, Error(error, None)), None)
  }

  /** The handler `POST`: checks in the order configuration, JSON, honeypot,
      required fields, socials, URLs; then the write. */
  function Post(env: Env, parsed: Parsed, protocol: UrlProtocol, store: StoreReply): (h: Handled)
    ensures BaseUrl(env) == [] || env.token == [] ==>
      h == Fail(500, "Server not configured (Directus env missing).")
    ensures BaseUrl(env) != [] && env.token != [] && parsed.NotJson? ==> h == Fail(400, "Invalid JSON.")
    ensures BaseUrl(env) != [] && env.token != [] && parsed.JsonNull? ==> h == Handled(Uncaught, None)
    ensures BaseUrl(env) != [] && env.token != [] && parsed.Object? && Honeypot(parsed.body) ==>
      h == Handled(Reply(200, Ok), None)
    ensures h.call.Some? <==>
      BaseUrl(env) != [] && env.token != [] && parsed.Object? && !Honeypot(parsed.body) &&
      !MissingRequired(parsed.body) && HasSocial(parsed.body) && AllUrlLike(parsed.body, protocol)
    ensures h.call.Some? ==>
      h.call.value == Request(ItemsUrl(env), env.token, PayloadOf(parsed.body))
    ensures h.call.Some? ==>
      h.reply == match store
        case Accepted => Reply(200, Ok)
        case Rejected(text) => Reply(500, Error("Directus rejected the submission.", Some(SliceTo(text, 300))))
        case FetchThrew => Uncaught
  {
    if BaseUrl(env) == [] || env.token == [] then Fail(500, "Server not configured (Directus env missing).")
    else if parsed.NotJson? then Fail(400, "Invalid JSON.")
    else if parsed.JsonNull? then Handled(Uncaught, None)
    else
      var b := parsed.body;
      if Honeypot(b) then Handled(Reply(200, Ok), None)
      else if MissingRequired(b) then Fail(400, "Missing required fields.")
      else if !HasSocial(b) then Fail(400, "At least one social link is required.")
      else if !AllUrlLike(b, protocol) then Fail(400, "One or more links are invalid URLs.")
      else
        var req := Request(ItemsUrl(env), env.token, PayloadOf(b));
        var reply := match store
          case Accepted => Reply(200, Ok)
          case Rejected(text) => Reply(500, Error("Directus rejected the submission.", Some(SliceTo(text, 300))))
          case FetchThrew => Uncaught;
        Handled(reply, Some(req))
  }

  /** Each validation failure answers 400 with its own message, in order. */
  lemma RejectionMessages(env: Env, b: CastingBody, protocol: UrlProtocol, store: StoreReply)
    requires BaseUrl(env) != [] && env.token != [] && !Honeypot(b)
    ensures MissingRequired(b) ==> Post(env, Object(b), protocol, store) == Fail(400, "Missing required fields.")
    ensures !MissingRequired(b) && !HasSocial(b) ==>
      Post(env, Object(b), protocol, store) == Fail(400, "At least one social link is required.")
    ensures !MissingRequired(b) && HasSocial(b) && !AllUrlLike(b, protocol) ==>
      Post(env, Object(b), protocol, store) == Fail(400, "One or more links are invalid URLs.")
  {
  }

  /** Whatever reaches the store is a complete, well-formed submission: the
      required fields are set, at least one social link is given, every
      link is blank or an http(s) URL, and the truncations hold. */
  lemma {:induction false} StoredSubmissionValid(env: Env, parsed: Parsed, protocol: UrlProtocol, store: StoreReply)
    requires Post(env, parsed, protocol, store).call.Some?
    ensures var p := Post(env, parsed, protocol, store).call.value.payload;
      p.name != [] && p.email != [] && p.mixLink != [] &&
      IsTrimmed(p.name) && IsTrimmed(p.email) && IsTrimmed(p.mixLink) &&
      (exists i :: 0 <= i < 7 && SocialList(p.socials)[i] != []) &&
      IsUrlLike(p.mixLink, protocol) &&
      (forall i :: 0 <= i < 7 ==> IsUrlLike(SocialList(p.socials)[i], protocol)) &&
      (p.countryCode.Some? ==> |p.countryCode.value| <= 2) &&
      (p.message.Some? ==> |p.message.value| <= 1200)
  {
    var b := parsed.body;
    var p := PayloadOf(b);
    assert UrlFields(b)[0] == p.mixLink;
    forall i | 0 <= i < 7 ensures IsUrlLike(SocialList(p.socials)[i], protocol) {
      assert UrlFields(b)[i + 1] == SocialList(p.socials)[i];
    }
  }

  /** The country code holds only upper-case letters where the input had
      letters: lower-case ASCII letters never reach the store. */
  lemma CountryCodeUpper(v: JsValue)
    ensures CountryCode(v).Some? ==>
      forall i :: 0 <= i < |CountryCode(v).value| ==> !('a' <= CountryCode(v).value[i] <= 'z')
  {
  }

  /** A filled honeypot is answered as a success and nothing is stored,
      whatever else the form holds. */
  lemma HoneypotNeverStores(env: Env, b: CastingBody, protocol: UrlProtocol, store: StoreReply)
    requires Honeypot(b)
    ensures Post(env, Object(b), protocol, store).call.None?
    ensures BaseUrl(env) != [] && env.token != [] ==> Post(env, Object(b), protocol, store).reply == Reply(200, Ok)
  {
  }
}
