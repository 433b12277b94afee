/** The contact form handler (src/pages/api/contact.ts): early-return
    validation, then one mail sent through the mail provider. The whole
    handler sits in a `try`, so every exception becomes a 500. */
module Contact {
  import opened Common
  import opened Text
  import opened Escape

  datatype ContactBody = ContactBody(name: JsValue, email: JsValue, subject: JsValue, message: JsValue, page: JsValue)

  /** What `request.json()` produced. Optional chaining (`body?.name`) makes a
      `null` body read like one with no fields. */
  datatype Parsed = NotJson | JsonNull | Object(body: ContactBody)

  /** The environment; an unset variable is the empty string. */
  datatype Env = Env(apiKey: string, contactTo: string, fromEmail: string, fromName: string)

  /** The mail handed to the provider. The HTML part is kept as its four
      escaped values; the fixed markup around them is not modelled. */
  datatype Mail = Mail(
    apiKey: string, senderName: string, senderEmail: string, to: string,
    replyToEmail: string, replyToName: string, subject: string,
    htmlName: string, htmlEmail: string, htmlPage: string, htmlMessage: string)

  /** The provider's answer: accepted, refused with a response text (one that
      cannot be read is `""`), or a `fetch` that throws. */
  datatype MailReply = Sent | Refused(text: string) | FetchThrew

  datatype Body = Ok | Error(error: string, details: Option<string>)

  datatype Response = Response(status: int, body: Body)

  datatype Handled = Handled(response: Response, call: Option<Mail>)

  function BodyOf(parsed: Parsed): ContactBody
    requires !parsed.NotJson?
  {
    if parsed.Object? then parsed.body else ContactBody(Undefined, Undefined, Undefined, Undefined, Undefined)
  }

  /** The subject typed in the form, `"Website contact"` when blank. */
  function Subject(b: ContactBody): (r: string)
    ensures r != []
    ensures Field(b.subject) != [] ==> r == Field(b.subject)
  {
    if Field(b.subject) != [] then Field(b.subject) else "Website contact"
  }

  const SubjectPrefix: string := "\U{1F4E9} Contact \U{2014} "

  function To(env: Env): string {
    if env.contactTo != [] then env.contactTo else "contact@radioabf.com"
  }

  function MailOf(env: Env, b: ContactBody): Mail {
    Mail(env.apiKey,
         if env.fromName != [] then env.fromName else "RadioABF",
         if env.fromEmail != [] then env.fromEmail else To(env),
         To(env), Field(b.email), Field(b.name), SubjectPrefix + Subject(b),
         EscapeHtml(Field(b.name)), EscapeHtml(Field(b.email)),
         EscapeHtml(Field(b.page)), EscapeHtml(Field(b.message)))
  }

  predicate MissingRequired(b: ContactBody) {
    Field(b.name) == [] || Field(b.email) == [] || Field(b.message) == []
  }

  function Fail(status: int, error: string): Handled {
    Handled(Response(status, Error(error, None)), None)
  }

  /** The handler `POST`. */
  function Post(env: Env, parsed: Parsed, mailer: MailReply): (h: Handled)
    ensures parsed.NotJson? ==> h == Fail(500, "Email sending failed.")
    ensures !parsed.NotJson? && MissingRequired(BodyOf(parsed)) ==> h == Fail(400, "Missing required fields.")
    ensures !parsed.NotJson? && !MissingRequired(BodyOf(parsed)) && '@' !in Field(BodyOf(parsed).email) ==>
      h == Fail(400, "Invalid email.")
    ensures !parsed.NotJson? && !MissingRequired(BodyOf(parsed)) && '@' in Field(BodyOf(parsed).email) && env.apiKey == [] ==>
      h == Fail(500, "Server email is not configured.")
    ensures h.call.Some? <==>
      !parsed.NotJson? && !MissingRequired(BodyOf(parsed)) && '@' in Field(BodyOf(parsed).email) && env.apiKey != []
    ensures h.call.Some? ==> h.call.value == MailOf(env, BodyOf(parsed))
    ensures h.call.Some? && mailer.Sent? ==> h.response == Response(200, Ok)
    ensures h.call.Some? && mailer.Refused? ==>
      h.response == Response(500, Error("Email sending failed.", Some(SliceTo(mailer.text, 300))))
    ensures h.call.Some? && mailer.FetchThrew? ==> h.response == Response(500, Error("Email sending failed.", None))
  {
    if parsed.NotJson? then Fail(500, "Email sending failed.")
    else
      var b := BodyOf(parsed);
      if MissingRequired(b) then Fail(400, "Missing required fields.")
      else if '@' !in Field(b.email) then Fail(400, "Invalid email.")
      else if env.apiKey == [] then Fail(500, "Server email is not configured.")
      else
        var response := match mailer
          case Sent => Response(200, Ok)
          case Refused(text) => Response(500, Error("Email sending failed.", Some(SliceTo(text, 300))))
          case FetchThrew => Response(500, Error("Email sending failed.", None));
        Handled(response, Some(MailOf(env, b)))
  }

  /** Only bad input answers 400, and every other failure, a body that is not
      JSON included, answers 500; the error details never exceed 300
      characters. */
  lemma {:induction false} StatusClasses(env: Env, parsed: Parsed, mailer: MailReply)
    ensures var r := Post(env, parsed, mailer).response;
      r.status in {200, 400, 500} &&
      (r.status == 400 <==>
        (!parsed.NotJson? && (MissingRequired(BodyOf(parsed)) || '@' !in Field(BodyOf(parsed).email)))) &&
      (r.body.Error? && r.body.details.Some? ==> |r.body.details.value| <= 300)
  {
    var h := Post(env, parsed, mailer);
    if h.call.Some? {
      assert mailer.Sent? || mailer.Refused? || mailer.FetchThrew?;
    }
  }

  /** A sent mail comes from a complete form with an address containing `@`,
      and carries the prefixed subject. */
  lemma SentMailValid(env: Env, parsed: Parsed, mailer: MailReply)
    requires Post(env, parsed, mailer).call.Some?
    ensures var m := Post(env, parsed, mailer).call.value;
      m.replyToName != [] && m.replyToEmail != [] && '@' in m.replyToEmail &&
      m.apiKey != [] && m.to != [] && m.senderEmail != [] && m.senderName != [] &&
      m.subject[..|SubjectPrefix|] == SubjectPrefix && |m.subject| > |SubjectPrefix|
  {
  }

  /** No character that would open a tag or close an attribute. */
  predicate Inert(x: string) {
    '<' !in x && '>' !in x && '"' !in x && '\'' !in x
  }

  lemma EscapedField(s: string)
    ensures Inert(EscapeHtml(s)) && Unescape(EscapeHtml(s)) == s
  {
    EscapeHtmlSafe(s);
    EscapeHtmlRoundTrip(s);
  }

  /** The values placed in the HTML body hold no markup characters, and
      decoding them gives back exactly what the visitor typed (trimmed). */
  lemma SentHtmlSafe(env: Env, parsed: Parsed, mailer: MailReply)
    requires Post(env, parsed, mailer).call.Some?
    ensures var m := Post(env, parsed, mailer).call.value;
      var b := BodyOf(parsed);
      Inert(m.htmlName) && Inert(m.htmlEmail) && Inert(m.htmlPage) && Inert(m.htmlMessage) &&
      Unescape(m.htmlName) == Field(b.name) && Unescape(m.htmlEmail) == Field(b.email) &&
      Unescape(m.htmlPage) == Field(b.page) && Unescape(m.htmlMessage) == Field(b.message)
  {
    var b := BodyOf(parsed);
    EscapedField(Field(b.name));
    EscapedField(Field(b.email));
    EscapedField(Field(b.page));
    EscapedField(Field(b.message));
  }

  /** A `null` body is incomplete input, not a crash. */
  lemma NullBodyIsMissingFields(env: Env, mailer: MailReply)
    ensures Post(env, JsonNull, mailer) == Fail(400, "Missing required fields.")
  {
  }
}
