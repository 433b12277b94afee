/** The dedication ticker of public/scripts/dedications-global.js: the
    escaping of names and messages, the ticker HTML written from the list of
    published dedications, the latest-date bookkeeping that decides when the
    list is reloaded, the check of a submitted dedication, and the guards
    that register the modal and form listeners once. The DOM, timers, the
    marquee animation and the network are outside the model: what a request
    returns is an argument, and whether the ticker element exists is a
    boolean. */
module Dedications {
  import opened Common
  import opened Text
  import opened Escape
  import opened Feed

  /** A dedication as the list request returns it. */
  datatype Dedication = Dedication(name: JsValue, message: JsValue, dateCreated: JsValue)

  const DefaultName := "Auditeur Anonyme"
  const Placeholder := "<span class=\"italic opacity-70\">Aucune d\U{E9}dicace pour le moment\U{2026}</span>"
  const Bullet := " \U{2022} "
  const NameOpen := "<span><strong class=\"text-cyan-300\">"
  const NameClose := "</strong> : "
  const PartClose := "</span>"

  /** `escapeHtml(str)`: `null` and `undefined` become the empty text, then
      `&` is replaced first and `< > " '` after it. */
  function EscapeHtmlValue(v: JsValue): (r: string)
    ensures v.Undefined? || v.Null? ==> r == []
    ensures '<' !in r && '>' !in r && '"' !in r && '\'' !in r
  {
    var s := if v.Undefined? || v.Null? then "" else ToStr(v);
    EscapeHtmlSafe(s);
    EscapeHtmlOnePass(s);
    EscapeHtml(s)
  }

  /** Decoding the entities gives back `String(str ?? "")`. */
  lemma EscapeHtmlValueRoundTrip(v: JsValue)
    ensures Unescape(EscapeHtmlValue(v)) == if v.Undefined? || v.Null? then "" else ToStr(v)
  {
    EscapeHtmlRoundTrip(if v.Undefined? || v.Null? then "" else ToStr(v));
  }

  /** `(i?.name || "Auditeur Anonyme").toString().trim()`. */
  function NameText(d: Dedication): string {
    Trim(ToStr(Or(d.name, Str(DefaultName))))
  }

  /** `(i?.message || "").toString().trim()`. */
  function MessageText(d: Dedication): string {
    Trim(ToStr(Or(d.message, Str(""))))
  }

  /** A dedication without a name is signed "Auditeur Anonyme"; one with a
      name shows it trimmed. */
  lemma NameTextDefault(d: Dedication)
    ensures !Truthy(d.name) ==> NameText(d) == DefaultName
    ensures Truthy(d.name) ==> NameText(d) == Trim(ToStr(d.name))
    ensures IsTrimmed(NameText(d))
  {
    if !Truthy(d.name) {
      assert DefaultName[0] == 'A' && DefaultName[|DefaultName| - 1] == 'e';
      TrimOfTrimmed(DefaultName);
    }
  }

  /** The pieces of one dedication's `<span>`. */
  function PartPieces(d: Dedication): (ps: seq<string>)
    ensures |ps| == 5
  {
    [NameOpen, EscapeHtmlValue(Str(NameText(d))), NameClose, EscapeHtmlValue(Str(MessageText(d))), PartClose]
  }

  function Part(d: Dedication): string {
    Concat(PartPieces(d))
  }

  /** A reader of a dedication's `<span>` finds, after the `<strong>` tag,
      text that decodes to the trimmed name and, after `</strong> : `, text
      that decodes to the trimmed message. */
  lemma PartReadBack(d: Dedication)
    ensures var b := Part(d);
      var ps := PartPieces(d);
      var n, m := |Concat(ps[..1])|, |Concat(ps[..3])|;
      n <= |b| && m <= |b| &&
      Unescape(ValueAt(b, n)) == NameText(d) && Unescape(ValueAt(b, m)) == MessageText(d)
  {
    var ps := PartPieces(d);
    assert ps[2][0] == '<' && ps[4][0] == '<';
    FieldReadBack(ps, 1, Str(NameText(d)));
    FieldReadBack(ps, 3, Str(MessageText(d)));
  }

  /** An escaped value followed by a tag decodes back to the value. */
  lemma FieldReadBack(ps: seq<string>, i: nat, v: JsValue)
    requires i + 1 < |ps| && ps[i] == EscapeHtmlValue(v) && ps[i + 1] != [] && ps[i + 1][0] == '<'
    ensures var b := Concat(ps);
      |Concat(ps[..i])| <= |b| &&
      Unescape(ValueAt(b, |Concat(ps[..i])|)) == if v.Undefined? || v.Null? then "" else ToStr(v)
  {
    PieceReadBack(ps, i);
    EscapeHtmlValueRoundTrip(v);
  }

  /** `items.map(...)`. */
  function Parts(items: seq<Dedication>): (ps: seq<string>)
    ensures |ps| == |items|
    ensures forall i :: 0 <= i < |items| ==> ps[i] == Part(items[i])
  {
    MapParts(Part, items)
  }

  /** `items.map(f)`. */
  function MapParts(f: Dedication -> string, items: seq<Dedication>): (ps: seq<string>)
    ensures |ps| == |items|
    ensures forall i :: 0 <= i < |items| ==> ps[i] == f(items[i])
  {
    seq(|items|, i requires 0 <= i < |items| => f(items[i]))
  }

  /** `Array(n).fill(s)`. */
  function Fill(n: nat, s: string): (r: seq<string>)
    ensures |r| == n && forall i :: 0 <= i < n ==> r[i] == s
  {
    seq(n, _ => s)
  }

  /** The ticker HTML that `loadFull` stores in `S.html`. */
  function Ticker(items: seq<Dedication>): string {
    if |items| == 0 then Placeholder
    else
      var joined := Join(Parts(items), Bullet);
      if |items| > 3 then Join(Fill(10, joined), Bullet) else joined
  }

  /** `n` copies of `s`, one `sep` between each two. */
  function Repeat(s: string, sep: string, n: nat): string
    requires n >= 1
    decreases n
  {
    if n == 1 then s else s + sep + Repeat(s, sep, n - 1)
  }

  lemma {:induction false} RepeatLength(s: string, sep: string, n: nat)
    requires n >= 1
    ensures |Repeat(s, sep, n)| == n * |s| + (n - 1) * |sep|
    decreases n
  {
    if n > 1 {
      RepeatLength(s, sep, n - 1);
    }
  }

  /** Joining `n` copies of a text is repeating it. */
  lemma {:induction false} JoinFill(n: nat, s: string, sep: string)
    requires n >= 1
    ensures Join(Fill(n, s), sep) == Repeat(s, sep, n)
    decreases n
  {
    if n > 1 {
      JoinFill(n - 1, s, sep);
      assert Fill(n, s)[1..] == Fill(n - 1, s);
    }
  }

  /** No dedication gives the placeholder; up to three give their parts
      joined by " • "; more than three give that text ten times, again
      separated by " • ". */
  lemma TickerShape(items: seq<Dedication>)
    ensures |items| == 0 ==> Ticker(items) == Placeholder
    ensures 1 <= |items| <= 3 ==> Ticker(items) == Join(Parts(items), Bullet)
    ensures |items| > 3 ==>
      var joined := Join(Parts(items), Bullet);
      Ticker(items) == Repeat(joined, Bullet, 10) &&
      |Ticker(items)| == 10 * |joined| + 9 * |Bullet|
  {
    if |items| > 3 {
      var joined := Join(Parts(items), Bullet);
      JoinFill(10, joined, Bullet);
      RepeatLength(joined, Bullet, 10);
    }
  }

  /** The dedications appear in list order: the part of item `i` follows
      those of the items before it, one " • " between them. */
  lemma TickerOrder(items: seq<Dedication>, i: nat)
    requires 0 < i < |items|
    ensures Join(Parts(items), Bullet) ==
      Join(Parts(items[..i]), Bullet) + Bullet + Join(Parts(items[i..]), Bullet)
    ensures Parts(items[i..])[0] == Part(items[i])
  {
    PartsSlices(items, i);
    JoinAt(Parts(items), Bullet, i);
  }

  lemma PartsSlices(items: seq<Dedication>, i: nat)
    requires i <= |items|
    ensures Parts(items)[..i] == Parts(items[..i]) && Parts(items)[i..] == Parts(items[i..])
  {
    MapPartsSlices(Part, items, i);
  }

  lemma MapPartsSlices(f: Dedication -> string, items: seq<Dedication>, i: nat)
    requires i <= |items|
    ensures MapParts(f, items)[..i] == MapParts(f, items[..i])
    ensures MapParts(f, items)[i..] == MapParts(f, items[i..])
  {
    var ps := MapParts(f, items);
    forall k | 0 <= k < i ensures ps[k] == MapParts(f, items[..i])[k] {
      assert items[..i][k] == items[k];
    }
    forall k | i <= k < |items| ensures ps[k] == MapParts(f, items[i..])[k - i] {
      assert items[i..][k - i] == items[k];
    }
  }

  /** `computeLatest(items)`: the first item's `date_created`, or `""`. */
  function ComputeLatest(items: seq<Dedication>): (r: JsValue)
    ensures Truthy(r) ==> |items| > 0 && r == items[0].dateCreated
    ensures !Truthy(r) ==> r == Str("")
    ensures |items| > 0 && Truthy(items[0].dateCreated) ==> r == items[0].dateCreated
  {
    if |items| == 0 then Str("") else Or(items[0].dateCreated, Str(""))
  }

  /** What the list request gave: a failure (an error status or a body that
      is not JSON, both caught) or the `data` field when it is present. */
  datatype ListResponse = ListFailed | ListOk(data: Option<seq<Dedication>>)

  /** What the latest-date request gave: a failure or
      `data?.data?.[0]?.date_created`. */
  datatype LatestResponse = LatestFailed | LatestOk(first: JsValue)

  /** `data?.data || []`. */
  function ItemsOf(data: Option<seq<Dedication>>): (items: seq<Dedication>)
    ensures data.Some? ==> items == data.value
    ensures data.None? ==> items == []
  {
    if data.Some? then data.value else []
  }

  /** Whether `checkNew` reloads the list: only once a latest date is known,
      and only when the fetched one is set and differs from it. */
  predicate ShouldReload(known: JsValue, res: LatestResponse) {
    Truthy(known) && res.LatestOk? && Truthy(Or(res.first, Str(""))) && Or(res.first, Str("")) != known
  }

  /** With no date known yet, nothing is reloaded; a fetched date equal to the
      known one never reloads; an empty one never does either. */
  lemma ShouldReloadCases(known: JsValue, res: LatestResponse)
    ensures !Truthy(known) ==> !ShouldReload(known, res)
    ensures res.LatestOk? && res.first == known ==> !ShouldReload(known, res)
    ensures res.LatestOk? && !Truthy(res.first) ==> !ShouldReload(known, res)
    ensures Truthy(known) && res.LatestOk? && Truthy(res.first) && res.first != known ==> ShouldReload(known, res)
  {
  }

  /** The script's shared state `S` as far as the model goes. The ghost
      counters record how many modal and form listeners have been
      registered. */
  class TickerState {
    var html: string
    var latest: JsValue
    var delegated: bool
    var formDelegated: bool
    ghost var modalListeners: nat
    ghost var formListeners: nat

    /** Each listener set is registered once, exactly when its flag is up. */
    ghost predicate Valid()
      reads this
    {
      modalListeners == (if delegated then 1 else 0) &&
      formListeners == (if formDelegated then 1 else 0)
    }

    /** The state created on the first run. */
    constructor()
      ensures Valid()
      ensures html == "" && latest == Str("") && !delegated && !formDelegated
    {
      html := "";
      latest := Str("");
      delegated := false;
      formDelegated := false;
      modalListeners := 0;
      formListeners := 0;
    }

    /** `loadFull`: without the ticker element, or when the request fails,
        nothing changes; otherwise the ticker HTML and the latest date are
        those of the fetched list. */
    method LoadFull(hasElement: bool, res: ListResponse)
      modifies this
      requires Valid()
      ensures Valid()
      ensures hasElement && res.ListOk? ==>
        html == Ticker(ItemsOf(res.data)) && latest == ComputeLatest(ItemsOf(res.data))
      ensures !hasElement || res.ListFailed? ==> html == old(html) && latest == old(latest)
      ensures delegated == old(delegated) && formDelegated == old(formDelegated)
      ensures modalListeners == old(modalListeners) && formListeners == old(formListeners)
    {
      if !hasElement {
        return;
      }
      match res
      case ListFailed =>
      case ListOk(data) =>
        var items := ItemsOf(data);
        html := Ticker(items);
        latest := ComputeLatest(items);
    }

    /** `checkNew`: reloads the list when `ShouldReload` holds, and reports
        whether it did. */
    method CheckNew(hasElement: bool, latestRes: LatestResponse, listRes: ListResponse) returns (reloaded: bool)
      modifies this
      requires Valid()
      ensures Valid()
      ensures reloaded == ShouldReload(old(latest), latestRes)
      ensures reloaded && hasElement && listRes.ListOk? ==>
        html == Ticker(ItemsOf(listRes.data)) && latest == ComputeLatest(ItemsOf(listRes.data))
      ensures !reloaded || !hasElement || listRes.ListFailed? ==> html == old(html) && latest == old(latest)
      ensures delegated == old(delegated) && formDelegated == old(formDelegated)
    {
      reloaded := false;
      if !Truthy(latest) {
        return;
      }
      match latestRes
      case LatestFailed =>
      case LatestOk(first) =>
        var fetched := Or(first, Str(""));
        if Truthy(fetched) && fetched != latest {
          LoadFull(hasElement, listRes);
          reloaded := true;
        }
    }

    /** `bindModalDelegationOnce`: registers the modal listeners only when
        they are not registered yet. */
    method BindModalDelegationOnce() returns (registered: bool)
      modifies this
      requires Valid()
      ensures Valid()
      ensures registered == !old(delegated) && delegated
      ensures modalListeners <= 1
      ensures html == old(html) && latest == old(latest) && formDelegated == old(formDelegated)
      ensures formListeners == old(formListeners)
    {
      if delegated {
        return false;
      }
      delegated := true;
      modalListeners := modalListeners + 1;
      registered := true;
    }

    /** `bindFormDelegationOnce`, with the same guard on `formDelegated`. */
    method BindFormDelegationOnce() returns (registered: bool)
      modifies this
      requires Valid()
      ensures Valid()
      ensures registered == !old(formDelegated) && formDelegated
      ensures formListeners <= 1
      ensures html == old(html) && latest == old(latest) && delegated == old(delegated)
      ensures modalListeners == old(modalListeners)
    {
      if formDelegated {
        return false;
      }
      formDelegated := true;
      formListeners := formListeners + 1;
      registered := true;
    }

    /** The listener part of `mount`, run on every page swap: however often
        it runs, each listener set stays registered once. */
    method Mount()
      modifies this
      requires Valid()
      ensures Valid()
      ensures delegated && formDelegated && modalListeners == 1 && formListeners == 1
      ensures html == old(html) && latest == old(latest)
    {
      var _ := BindModalDelegationOnce();
      var _ := BindFormDelegationOnce();
    }
  }

  // ------------------------------------------------------------ submission

  const EmptyMessageFeedback := "Please write a message \U{1F642}"

  /** What the submit handler does with the form: refuse an empty message,
      or send the payload. */
  datatype Submission = Refused(feedback: string) | Send(name: string, message: string)

  /** The check before any request: the trimmed message must not be empty;
      the name defaults to "Auditeur Anonyme". */
  function Submit(nameValue: JsValue, messageValue: JsValue): Submission {
    var name := Trim(ToStr(Or(nameValue, Str(""))));
    var message := Trim(ToStr(Or(messageValue, Str(""))));
    if message == [] then Refused(EmptyMessageFeedback)
    else Send(if name != [] then name else DefaultName, message)
  }

  /** A blank message is refused before anything is sent; otherwise the
      payload holds the trimmed message and a non-empty trimmed name, the
      default one exactly when the name field is blank. */
  lemma SubmitFacts(nameValue: JsValue, messageValue: JsValue)
    ensures var message := Trim(ToStr(Or(messageValue, Str(""))));
      Submit(nameValue, messageValue).Refused? <==> message == []
    ensures var r := Submit(nameValue, messageValue);
      var name := Trim(ToStr(Or(nameValue, Str(""))));
      r.Send? ==>
        r.message == Trim(ToStr(Or(messageValue, Str("")))) && r.message != [] && IsTrimmed(r.message) &&
        r.name != [] && IsTrimmed(r.name) &&
        (name == [] ==> r.name == DefaultName) && (name != [] ==> r.name == name)
  {
    assert DefaultName[0] == 'A' && DefaultName[|DefaultName| - 1] == 'e';
  }
}
