/** The markup escapers of the site: `esc` (src/pages/api/contact.ts),
    `escapeHtml` (public/scripts/dedications-global.js) and the two `escapeXml`
    (src/pages/sitemap.xml.ts, src/pages/rss.xml.ts). Each is a chain of
    `replace`/`replaceAll` calls on one character at a time. */
module Escape {
  import opened Text

  /** One `replaceAll(c, rep)` step. */
  type Rule = (char, string)

  /** The replacements applied one after the other, each to the whole text. */
  function ReplaceChain(s: string, rules: seq<Rule>): string
    decreases |rules|
  {
    if rules == [] then s
    else ReplaceChain(ReplaceAll(s, [rules[0].0], rules[0].1), rules[1..])
  }

  /** What the first rule for `c` turns it into; other characters are kept. */
  function EntityOf(rules: seq<Rule>, c: char): string
    decreases |rules|
  {
    if rules == [] then [c]
    else if rules[0].0 == c then rules[0].1
    else EntityOf(rules[1..], c)
  }

  /** No replacement text holds a character that a later step rewrites, so
      no step rewrites what an earlier step produced. */
  predicate NoRescan(rules: seq<Rule>) {
    forall i, j, k :: 0 <= i < j < |rules| && 0 <= k < |rules[i].1| ==> rules[i].1[k] != rules[j].0
  }

  lemma {:induction false} EntityOfUnmatched(rules: seq<Rule>, c: char)
    requires forall j :: 0 <= j < |rules| ==> rules[j].0 != c
    ensures EntityOf(rules, c) == [c]
    decreases |rules|
  {
    if rules != [] {
      EntityOfUnmatched(rules[1..], c);
    }
  }

  /** Under `NoRescan`, the chain is a single left-to-right pass that rewrites
      each character by the first rule for it. */
  lemma {:induction false} ChainIsOnePass(s: string, rules: seq<Rule>)
    requires NoRescan(rules)
    ensures ReplaceChain(s, rules) == MapChars(s, c => EntityOf(rules, c))
    decreases |rules|
  {
    if rules == [] {
      MapCharsFixed(s, c => EntityOf(rules, c));
    } else {
      var c0, r0 := rules[0].0, rules[0].1;
      var rest := rules[1..];
      var f := (x: char) => if x == c0 then r0 else [x];
      var g := (x: char) => EntityOf(rest, x);
      ReplaceCharIsMap(s, c0, r0);
      ChainIsOnePass(MapChars(s, f), rest);
      MapCharsCompose(s, f, g);
      forall c ensures MapChars(f(c), g) == EntityOf(rules, c) {
        if c == c0 {
          forall k | 0 <= k < |r0| ensures g(r0[k]) == [r0[k]] {
            forall j | 0 <= j < |rest| ensures rest[j].0 != r0[k] {
              assert rest[j] == rules[j + 1];
            }
            EntityOfUnmatched(rest, r0[k]);
          }
          MapCharsFixed(r0, g);
        } else {
          assert [c][1..] == [];
        }
      }
      MapCharsExt(s, c => MapChars(f(c), g), c => EntityOf(rules, c));
    }
  }

  /** Decoding of the five entities the escapers produce; any other
      character, including an unrecognised `&`, is kept. */
  function Unescape(s: string): string
    decreases |s|
  {
    if s == [] then []
    else if s[0] != '&' then [s[0]] + Unescape(s[1..])
    else if StartsWith(s, "&amp;") then "&" + Unescape(s[5..])
    else if StartsWith(s, "&lt;") then "<" + Unescape(s[4..])
    else if StartsWith(s, "&gt;") then ">" + Unescape(s[4..])
    else if StartsWith(s, "&quot;") then "\"" + Unescape(s[6..])
    else if StartsWith(s, "&#039;") then "'" + Unescape(s[6..])
    else [s[0]] + Unescape(s[1..])
  }

  // ------------------------------------------------------------------ HTML

  /** `&` first, then `< > " '`. */
  const HtmlRules: seq<Rule> := [('&', "&amp;"), ('<', "&lt;"), ('>', "&gt;"), ('"', "&quot;"), ('\'', "&#039;")]

  function HtmlEntity(c: char): (r: string)
    ensures r == EntityOf(HtmlRules, c)
  {
    if c == '&' then "&amp;"
    else if c == '<' then "&lt;"
    else if c == '>' then "&gt;"
    else if c == '"' then "&quot;"
    else if c == '\'' then "&#039;"
    else [c]
  }

  /** `esc` / `escapeHtml`. */
  function EscapeHtml(s: string): string {
    ReplaceChain(s, HtmlRules)
  }

  lemma EscapeHtmlOnePass(s: string)
    ensures EscapeHtml(s) == MapChars(s, HtmlEntity)
  {
    ChainIsOnePass(s, HtmlRules);
    MapCharsExt(s, c => EntityOf(HtmlRules, c), HtmlEntity);
  }

  lemma EscapeHtmlAvoids(s: string, x: char)
    requires x == '<' || x == '>' || x == '"' || x == '\''
    ensures x !in EscapeHtml(s)
  {
    EscapeHtmlOnePass(s);
    forall c ensures x !in HtmlEntity(c) {
      HtmlEntityAvoids(c, x);
    }
    MapCharsAvoids(s, HtmlEntity, x);
  }

  lemma HtmlEntityAvoids(c: char, x: char)
    requires x == '<' || x == '>' || x == '"' || x == '\''
    ensures x !in HtmlEntity(c)
  {
    if c == '\'' {
      assert HtmlEntity(c) == "&#039;";
    } else {
      assert HtmlEntity(c) == XmlEntity(c);
      XmlEntityAvoids(c, if x == '\'' then '"' else x);
    }
  }

  /** The escaped text holds none of `< > " '`. */
  lemma EscapeHtmlSafe(s: string)
    ensures '<' !in EscapeHtml(s) && '>' !in EscapeHtml(s)
    ensures '"' !in EscapeHtml(s) && '\'' !in EscapeHtml(s)
  {
    EscapeHtmlAvoids(s, '<');
    EscapeHtmlAvoids(s, '>');
    EscapeHtmlAvoids(s, '"');
    EscapeHtmlAvoids(s, '\'');
  }

  lemma {:induction false} UnescapeHtmlEntities(s: string)
    ensures Unescape(MapChars(s, HtmlEntity)) == s
  {
    if s != [] {
      UnescapeHtmlEntities(s[1..]);
      UnescapeEntity(HtmlEntity(s[0]), s[0], MapChars(s[1..], HtmlEntity));
    }
  }

  /** A reader decoding the entities gets the original text back. */
  lemma EscapeHtmlRoundTrip(s: string)
    ensures Unescape(EscapeHtml(s)) == s
  {
    EscapeHtmlOnePass(s);
    UnescapeHtmlEntities(s);
  }

  /** Decoding reads one escaped character off the front. */
  lemma UnescapeEntity(e: string, c: char, t: string)
    requires e == HtmlEntity(c) || e == XmlEntity(c)
    ensures Unescape(e + t) == [c] + Unescape(t)
  {
    if c == '&' {
      UnescapeAmp(t);
    } else if c == '<' {
      UnescapeLt(t);
    } else if c == '>' {
      UnescapeGt(t);
    } else if c == '"' {
      UnescapeQuot(t);
    } else if c == '\'' && e == HtmlEntity(c) {
      UnescapeApos(t);
    } else {
      UnescapePlain(c, t);
    }
  }

  lemma UnescapeAmp(t: string)
    ensures Unescape("&amp;" + t) == "&" + Unescape(t)
  {
    var u := "&amp;" + t;
    assert u[..5] == "&amp;" && u[5..] == t;
  }

  lemma UnescapeLt(t: string)
    ensures Unescape("&lt;" + t) == "<" + Unescape(t)
  {
    var u := "&lt;" + t;
    assert u[..4] == "&lt;" && u[4..] == t;
    assert u[1] == 'l';
  }

  lemma UnescapeGt(t: string)
    ensures Unescape("&gt;" + t) == ">" + Unescape(t)
  {
    var u := "&gt;" + t;
    assert u[..4] == "&gt;" && u[4..] == t;
    assert u[1] == 'g';
  }

  lemma UnescapeQuot(t: string)
    ensures Unescape("&quot;" + t) == "\"" + Unescape(t)
  {
    var u := "&quot;" + t;
    assert u[..6] == "&quot;" && u[6..] == t;
    assert u[1] == 'q';
  }

  lemma UnescapeApos(t: string)
    ensures Unescape("&#039;" + t) == "'" + Unescape(t)
  {
    var u := "&#039;" + t;
    assert u[..6] == "&#039;" && u[6..] == t;
    assert u[1] == '#';
  }

  lemma UnescapePlain(c: char, t: string)
    requires c != '&'
    ensures Unescape([c] + t) == [c] + Unescape(t)
  {
    var u := [c] + t;
    assert u[0] == c && u[1..] == t;
  }

  // ------------------------------------------------------------------- XML

  /** `&` first, then `< > "`, as in the sitemap. */
  const XmlRules: seq<Rule> := [('&', "&amp;"), ('<', "&lt;"), ('>', "&gt;"), ('"', "&quot;")]

  function XmlEntity(c: char): (r: string)
    ensures r == EntityOf(XmlRules, c)
  {
    if c == '&' then "&amp;"
    else if c == '<' then "&lt;"
    else if c == '>' then "&gt;"
    else if c == '"' then "&quot;"
    else [c]
  }

  /** `escapeXml` of src/pages/sitemap.xml.ts. */
  function EscapeXml(s: string): string {
    ReplaceChain(s, XmlRules)
  }

  lemma EscapeXmlOnePass(s: string)
    ensures EscapeXml(s) == MapChars(s, XmlEntity)
  {
    ChainIsOnePass(s, XmlRules);
    MapCharsExt(s, c => EntityOf(XmlRules, c), XmlEntity);
  }

  lemma EscapeXmlAvoids(s: string, x: char)
    requires x == '<' || x == '>' || x == '"'
    ensures x !in EscapeXml(s)
  {
    EscapeXmlOnePass(s);
    forall c ensures x !in XmlEntity(c) {
      XmlEntityAvoids(c, x);
    }
    MapCharsAvoids(s, XmlEntity, x);
  }

  lemma XmlEntityAvoids(c: char, x: char)
    requires x == '<' || x == '>' || x == '"'
    ensures x !in XmlEntity(c)
  {
  }

  /** The escaped text holds no raw `<`, `>` or `"`. */
  lemma EscapeXmlSafe(s: string)
    ensures '<' !in EscapeXml(s) && '>' !in EscapeXml(s) && '"' !in EscapeXml(s)
  {
    EscapeXmlAvoids(s, '<');
    EscapeXmlAvoids(s, '>');
    EscapeXmlAvoids(s, '"');
  }

  lemma {:induction false} UnescapeXmlEntities(s: string)
    ensures Unescape(MapChars(s, XmlEntity)) == s
  {
    if s != [] {
      UnescapeXmlEntities(s[1..]);
      UnescapeEntity(XmlEntity(s[0]), s[0], MapChars(s[1..], XmlEntity));
    }
  }

  /** An XML reader gets the original text back. */
  lemma EscapeXmlRoundTrip(s: string)
    ensures Unescape(EscapeXml(s)) == s
  {
    EscapeXmlOnePass(s);
    UnescapeXmlEntities(s);
  }

  /** The rules of `escapeXml` in src/pages/rss.xml.ts as written: `>` is
      replaced by `&lt;`. */
  const RssRules: seq<Rule> := [('&', "&amp;"), ('<', "&lt;"), ('>', "&lt;"), ('"', "&quot;")]

  /** `escapeXml` of src/pages/rss.xml.ts, as written. */
  function RssEscapeXml(s: string): string {
    ReplaceChain(s, RssRules)
  }

  /** As written, the feed escaper turns `>` into an escaped `<`: a reader of
      the feed sees `<` where the text had `>`, and the two characters can no
      longer be told apart. */
  lemma RssEscapeXmlSwapsGreaterThan()
    ensures RssEscapeXml(">") == RssEscapeXml("<") == "&lt;"
    ensures Unescape(RssEscapeXml(">")) == "<"
  {
    ChainIsOnePass(">", RssRules);
    ChainIsOnePass("<", RssRules);
    assert MapChars(">", c => EntityOf(RssRules, c)) == "&lt;";
    assert MapChars("<", c => EntityOf(RssRules, c)) == "&lt;";
    UnescapeEntity("&lt;", '<', "");
  }

  function RssEntity(c: char): (r: string)
    ensures r == EntityOf(RssRules, c)
  {
    if c == '&' then "&amp;"
    else if c == '<' || c == '>' then "&lt;"
    else if c == '"' then "&quot;"
    else [c]
  }

  lemma RssEscapeXmlOnePass(s: string)
    ensures RssEscapeXml(s) == MapChars(s, RssEntity)
  {
    ChainIsOnePass(s, RssRules);
    MapCharsExt(s, c => EntityOf(RssRules, c), RssEntity);
  }

  /** The feed escaper still leaves no raw `<`, `>` or `"`. */
  lemma RssEscapeXmlSafe(s: string)
    ensures '<' !in RssEscapeXml(s) && '>' !in RssEscapeXml(s) && '"' !in RssEscapeXml(s)
  {
    RssEscapeXmlOnePass(s);
    forall c ensures '<' !in RssEntity(c) && '>' !in RssEntity(c) && '"' !in RssEntity(c) {
    }
    MapCharsAvoids(s, RssEntity, '<');
    MapCharsAvoids(s, RssEntity, '>');
    MapCharsAvoids(s, RssEntity, '"');
  }

  /** What a feed reader decodes: the text with every `>` read as `<`. */
  function GtAsLt(c: char): string {
    if c == '>' then "<" else [c]
  }

  lemma {:induction false} UnescapeRssEntities(s: string)
    ensures Unescape(MapChars(s, RssEntity)) == MapChars(s, GtAsLt)
  {
    if s != [] {
      UnescapeRssEntities(s[1..]);
      var c := if s[0] == '>' then '<' else s[0];
      assert RssEntity(s[0]) == XmlEntity(c);
      UnescapeEntity(RssEntity(s[0]), c, MapChars(s[1..], RssEntity));
    }
  }

  /** Decoding the feed escaper's output gives the text back with each `>`
      turned into `<`; it is the original exactly when there is no `>`. */
  lemma RssEscapeXmlDecodes(s: string)
    ensures Unescape(RssEscapeXml(s)) == MapChars(s, GtAsLt)
    ensures '>' !in s ==> Unescape(RssEscapeXml(s)) == s
  {
    RssEscapeXmlOnePass(s);
    UnescapeRssEntities(s);
    if '>' !in s {
      MapCharsFixed(s, GtAsLt);
    }
  }
}
