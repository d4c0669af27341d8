/**
 * The client portal script (backend/static/js/client.js, with its copy in
 * frontend/JS/client.js): the HTML escaper, the ticket details read from a
 * ticket card, the tracking button's guard and the defaults of the tracking card.
 */
module ClientPortal {
  import opened Wrappers
  import opened Text

  // ---------------------------------------------------------------- escapeHtml

  /** `s.replace(/c/g, rep)`: every occurrence of the character `c` becomes `rep`. */
  function ReplaceAll(s: string, c: char, rep: string): string {
    if s == [] then [] else Replaced(s[0], c, rep) + ReplaceAll(s[1..], c, rep)
  }

  /** What one character becomes under `s.replace(/c/g, rep)`. */
  function Replaced(x: char, c: char, rep: string): string {
    if x == c then rep else [x]
  }

  lemma {:induction false} ReplaceAllAppend(a: string, b: string, c: char, rep: string)
    ensures ReplaceAll(a + b, c, rep) == ReplaceAll(a, c, rep) + ReplaceAll(b, c, rep)
  {
    if a == [] {
      assert a + b == b;
    } else {
      var h := Replaced(a[0], c, rep);
      assert (a + b)[0] == a[0] && (a + b)[1..] == a[1..] + b;
      calc {
        ReplaceAll(a + b, c, rep);
        h + ReplaceAll(a[1..] + b, c, rep);
        { ReplaceAllAppend(a[1..], b, c, rep); }
        h + (ReplaceAll(a[1..], c, rep) + ReplaceAll(b, c, rep));
        (h + ReplaceAll(a[1..], c, rep)) + ReplaceAll(b, c, rep);
      }
    }
  }

  /** `escapeHtml(str)`: the five `replace` calls, `&` first. */
  function EscapeHtml(s: string): string {
    EscapeMarkup(ReplaceAll(s, '&', "&amp;"))
  }

  /** The four `replace` calls after the one for `&`. */
  function EscapeMarkup(s: string): string {
    ReplaceAll(ReplaceAll(ReplaceAll(ReplaceAll(s, '<', "&lt;"), '>', "&gt;"), '"', "&quot;"), '\'', "&#39;")
  }

  /** A string without `<`, `>`, `"` and `'` goes through the last four calls unchanged. */
  lemma MarkupAbsent(s: string)
    requires '<' !in s && '>' !in s && '"' !in s && '\'' !in s
    ensures EscapeMarkup(s) == s
  {
    ReplaceAbsent(s, '<', "&lt;");
    ReplaceAbsent(s, '>', "&gt;");
    ReplaceAbsent(s, '"', "&quot;");
    ReplaceAbsent(s, '\'', "&#39;");
  }

  /** The character reference of one character; any other character stands for itself. */
  function EscapeChar(c: char): string {
    match c
    case '&' => "&amp;"
    case '<' => "&lt;"
    case '>' => "&gt;"
    case '"' => "&quot;"
    case '\'' => "&#39;"
    case _ => [c]
  }

  /** The reference escaper: each character replaced by its reference, independently of the others. */
  function EscapePerChar(s: string): (r: string)
    ensures '<' !in r && '>' !in r && '"' !in r && '\'' !in r
  {
    if s == [] then [] else EscapeChar(s[0]) + EscapePerChar(s[1..])
  }

  /**
   * Because `&` is replaced first, the chain escapes each character once: the
   * entities it produces are never escaped again (`<` gives `&lt;`, not `&amp;lt;`).
   */
  lemma {:induction false} EscapeIsPerChar(s: string)
    ensures EscapeHtml(s) == EscapePerChar(s)
  {
    if s != [] {
      var c, rest := s[0], s[1..];
      assert s == [c] + rest;
      ReplaceAllAppend([c], rest, '&', "&amp;");
      var a1, b1 := ReplaceAll([c], '&', "&amp;"), ReplaceAll(rest, '&', "&amp;");
      ReplaceAllAppend(a1, b1, '<', "&lt;");
      var a2, b2 := ReplaceAll(a1, '<', "&lt;"), ReplaceAll(b1, '<', "&lt;");
      ReplaceAllAppend(a2, b2, '>', "&gt;");
      var a3, b3 := ReplaceAll(a2, '>', "&gt;"), ReplaceAll(b2, '>', "&gt;");
      ReplaceAllAppend(a3, b3, '"', "&quot;");
      var a4, b4 := ReplaceAll(a3, '"', "&quot;"), ReplaceAll(b3, '"', "&quot;");
      ReplaceAllAppend(a4, b4, '\'', "&#39;");
      EscapeIsPerChar(rest);
      EscapeOne(c);
    }
  }

  /** The chain on a single character gives that character's reference. */
  lemma EscapeOne(c: char)
    ensures EscapeHtml([c]) == EscapeChar(c)
  {
    if c == '&' {
      EscapeAmpersand(c);
    } else if c == '<' {
      EscapeLessThan(c);
    } else if c == '>' {
      EscapeGreaterThan(c);
    } else if c == '"' {
      EscapeQuote(c);
    } else if c == '\'' {
      EscapeApostrophe(c);
    } else {
      ReplaceAbsent([c], '&', "&amp;");
      MarkupAbsent([c]);
    }
  }

  lemma EscapeAmpersand(c: char)
    requires c == '&'
    ensures EscapeHtml([c]) == "&amp;"
  {
    var s1 := ReplaceAll([c], '&', "&amp;");
    ReplaceOne(c, "&amp;");
    MarkupAbsent(s1);
  }

  lemma EscapeLessThan(c: char)
    requires c == '<'
    ensures EscapeHtml([c]) == "&lt;"
  {
    var s1 := ReplaceAll([c], '&', "&amp;");
    ReplaceAbsent([c], '&', "&amp;");
    var s2 := ReplaceAll(s1, '<', "&lt;");
    ReplaceOne(c, "&lt;");
    assert s2 == "&lt;";
    var s3 := ReplaceAll(s2, '>', "&gt;");
    ReplaceAbsent(s2, '>', "&gt;");
    var s4 := ReplaceAll(s3, '"', "&quot;");
    ReplaceAbsent(s3, '"', "&quot;");
    ReplaceAbsent(s4, '\'', "&#39;");
  }

  lemma EscapeGreaterThan(c: char)
    requires c == '>'
    ensures EscapeHtml([c]) == "&gt;"
  {
    var s1 := ReplaceAll([c], '&', "&amp;");
    ReplaceAbsent([c], '&', "&amp;");
    var s2 := ReplaceAll(s1, '<', "&lt;");
    ReplaceAbsent(s1, '<', "&lt;");
    var s3 := ReplaceAll(s2, '>', "&gt;");
    ReplaceOne(c, "&gt;");
    assert s3 == "&gt;";
    var s4 := ReplaceAll(s3, '"', "&quot;");
    ReplaceAbsent(s3, '"', "&quot;");
    ReplaceAbsent(s4, '\'', "&#39;");
  }

  lemma EscapeQuote(c: char)
    requires c == '"'
    ensures EscapeHtml([c]) == "&quot;"
  {
    var s1 := ReplaceAll([c], '&', "&amp;");
    ReplaceAbsent([c], '&', "&amp;");
    var s2 := ReplaceAll(s1, '<', "&lt;");
    ReplaceAbsent(s1, '<', "&lt;");
    var s3 := ReplaceAll(s2, '>', "&gt;");
    ReplaceAbsent(s2, '>', "&gt;");
    var s4 := ReplaceAll(s3, '"', "&quot;");
    ReplaceOne(c, "&quot;");
    assert s4 == "&quot;";
    ReplaceAbsent(s4, '\'', "&#39;");
  }

  lemma EscapeApostrophe(c: char)
    requires c == '\''
    ensures EscapeHtml([c]) == "&#39;"
  {
    var s1 := ReplaceAll([c], '&', "&amp;");
    ReplaceAbsent([c], '&', "&amp;");
    var s2 := ReplaceAll(s1, '<', "&lt;");
    ReplaceAbsent(s1, '<', "&lt;");
    var s3 := ReplaceAll(s2, '>', "&gt;");
    ReplaceAbsent(s2, '>', "&gt;");
    var s4 := ReplaceAll(s3, '"', "&quot;");
    ReplaceAbsent(s3, '"', "&quot;");
    ReplaceOne(c, "&#39;");
    assert ReplaceAll(s4, '\'', "&#39;") == "&#39;";
  }

  lemma ReplaceOne(c: char, rep: string)
    ensures ReplaceAll([c], c, rep) == rep
  {
    assert ReplaceAll([c], c, rep) == rep + ReplaceAll([], c, rep);
  }

  /** Replacing a character the string does not hold changes nothing. */
  lemma {:induction false} ReplaceAbsent(s: string, c: char, rep: string)
    requires c !in s
    ensures ReplaceAll(s, c, rep) == s
  {
    if s != [] {
      assert s[0] in s && forall x :: x in s[1..] ==> x in s;
      ReplaceAbsent(s[1..], c, rep);
      assert s == [s[0]] + s[1..];
    }
  }

  /** `escapeHtml` output contains no `<`, `>`, `"` or `'`. */
  lemma EscapedIsSafe(s: string)
    ensures '<' !in EscapeHtml(s) && '>' !in EscapeHtml(s) && '"' !in EscapeHtml(s) && '\'' !in EscapeHtml(s)
  {
    EscapeIsPerChar(s);
  }

  /** A string with none of the five characters comes back unchanged. */
  lemma PlainUnchanged(s: string)
    requires '&' !in s && '<' !in s && '>' !in s && '"' !in s && '\'' !in s
    ensures EscapeHtml(s) == s
  {
    EscapeIsPerChar(s);
    assert forall i | 0 <= i < |s| :: !Special(s[i]) by {
      forall i | 0 <= i < |s| ensures !Special(s[i]) {
        assert s[i] in s;
      }
    }
    PerCharPlain(s);
  }

  /** One of the five characters `escapeHtml` replaces. */
  predicate Special(c: char) {
    c == '&' || c == '<' || c == '>' || c == '"' || c == '\''
  }

  lemma EscapeCharPlain(c: char)
    requires !Special(c)
    ensures EscapeChar(c) == [c]
  {
  }

  lemma {:induction false} PerCharPlain(s: string)
    requires forall i | 0 <= i < |s| :: !Special(s[i])
    ensures EscapePerChar(s) == s
  {
    if s != [] {
      EscapeCharPlain(s[0]);
      PerCharPlain(s[1..]);
      assert s == [s[0]] + s[1..];
    }
  }

  /** The character a reference at the front of `t` stands for, and the reference's length. */
  function Reference(t: string): (r: Option<(char, nat)>)
    ensures r.Some? ==> 0 < r.value.1 <= |t| && StartsWith(t, EscapeChar(r.value.0)) && |EscapeChar(r.value.0)| == r.value.1
  {
    if StartsWith(t, "&amp;") then Some(('&', 5))
    else if StartsWith(t, "&lt;") then Some(('<', 4))
    else if StartsWith(t, "&gt;") then Some(('>', 4))
    else if StartsWith(t, "&quot;") then Some(('"', 6))
    else if StartsWith(t, "&#39;") then Some(('\'', 5))
    else None
  }

  /** What a browser makes of the five references: the inverse of the escaper. */
  function Unescape(t: string): string
    decreases |t|
  {
    if t == [] then []
    else
      match Reference(t)
      case Some((c, n)) => [c] + Unescape(t[n..])
      case None => [t[0]] + Unescape(t[1..])
  }

  /** The escaped text reads back as the original: no information is lost. */
  lemma {:induction false} UnescapeEscape(s: string)
    ensures Unescape(EscapeHtml(s)) == s
  {
    EscapeIsPerChar(s);
    UnescapePerChar(s);
  }

  lemma {:induction false} UnescapePerChar(s: string)
    ensures Unescape(EscapePerChar(s)) == s
  {
    if s != [] {
      UnescapePerChar(s[1..]);
      UnescapeFront(s[0], EscapePerChar(s[1..]));
      assert s == [s[0]] + s[1..];
    }
  }

  /** Unescaping reads one escaped character back and goes on with the rest. */
  lemma UnescapeFront(c: char, rest: string)
    ensures Unescape(EscapeChar(c) + rest) == [c] + Unescape(rest)
  {
    var t := EscapeChar(c) + rest;
    ReferenceFront(c, rest);
    assert t[|EscapeChar(c)|..] == rest;
    if !Special(c) {
      assert t[0] == c && t[1..] == rest;
    }
  }

  /** A reference at the front is recognised as its own character, and a plain character as none. */
  lemma ReferenceFront(c: char, rest: string)
    ensures Special(c) ==> Reference(EscapeChar(c) + rest) == Some((c, |EscapeChar(c)|))
    ensures !Special(c) ==> Reference(EscapeChar(c) + rest) == None
  {
    var t := EscapeChar(c) + rest;
    match c
    case '&' => assert t[..5] == "&amp;";
    case '<' => assert t[1] == 'l' && t[..4] == "&lt;";
    case '>' => assert t[1] == 'g' && t[..4] == "&gt;";
    case '"' => assert t[1] == 'q' && t[..6] == "&quot;";
    case '\'' => assert t[1] == '#' && t[..5] == "&#39;";
    case _ => assert t[0] == c;
  }

  // ---------------------------------------------------------------- ticket details

  /** `innerText.split('\n').map(trim).filter(Boolean)`: the trimmed, non-empty lines. */
  function Lines(meta: string): (ls: seq<string>)
    ensures forall l :: l in ls ==> l != "" && !IsSpace(l[0]) && !IsSpace(l[|l| - 1])
  {
    NonBlank(Split(meta, "\n"))
  }

  function NonBlank(raw: seq<string>): (ls: seq<string>)
    ensures forall l :: l in ls ==> l != "" && !IsSpace(l[0]) && !IsSpace(l[|l| - 1])
  {
    if raw == [] then []
    else if Trim(raw[0]) == "" then NonBlank(raw[1..])
    else
      [Trim(raw[0])] + NonBlank(raw[1..])
  }

  /** The kept lines of two pieces are those of the first followed by those of the second: the order is kept. */
  lemma {:induction false} NonBlankAppend(a: seq<string>, b: seq<string>)
    ensures NonBlank(a + b) == NonBlank(a) + NonBlank(b)
  {
    if a == [] {
      assert a + b == b;
    } else {
      assert (a + b)[0] == a[0] && (a + b)[1..] == a[1..] + b;
      NonBlankAppend(a[1..], b);
    }
  }

  /** One line is kept, trimmed, iff it is not blank. */
  lemma NonBlankSingle(x: string)
    ensures NonBlank([x]) == if AllSpace(x) then [] else [Trim(x)]
  {
    TrimEmpty(x);
    assert [x][1..] == [];
  }

  /** Every line that is not blank is kept, trimmed. */
  lemma {:induction false} NonBlankKeeps(raw: seq<string>, k: nat)
    requires k < |raw| && !AllSpace(raw[k])
    ensures Trim(raw[k]) in NonBlank(raw)
  {
    TrimEmpty(raw[0]);
    if k > 0 {
      assert raw[1..][k - 1] == raw[k];
      NonBlankKeeps(raw[1..], k - 1);
    }
  }

  /** Nothing else is kept: each kept line is the trimmed form of a line that is not blank. */
  lemma {:induction false} NonBlankOnly(raw: seq<string>, l: string)
    requires l in NonBlank(raw)
    ensures exists k :: 0 <= k < |raw| && !AllSpace(raw[k]) && l == Trim(raw[k])
  {
    TrimEmpty(raw[0]);
    if l in NonBlank(raw[1..]) {
      NonBlankOnly(raw[1..], l);
      var k :| 0 <= k < |raw[1..]| && !AllSpace(raw[1..][k]) && l == Trim(raw[1..][k]);
      assert raw[k + 1] == raw[1..][k];
    } else {
      assert !AllSpace(raw[0]) && l == Trim(raw[0]);
    }
  }

  /** A line that starts, case-insensitively, with `ticket id`. */
  predicate IsIdLine(p: string) {
    StartsWith(Lower(p), "ticket id")
  }

  /** A line that is not an id line and holds four consecutive digits. */
  predicate IsDateLine(p: string) {
    !IsIdLine(p) && HasFourDigits(p)
  }

  /** `p.split(':').slice(1).join(':').trim()`. */
  function IdOf(p: string): string {
    Trim(Join(Split(p, ":")[1..], ":"))
  }

  /** The id is the trimmed text after the first `:`, later colons included. */
  lemma IdAfterFirstColon(p: string, k: nat)
    requires k < |p| && p[k] == ':' && forall j :: 0 <= j < k ==> p[j] != ':'
    ensures IdOf(p) == Trim(p[k + 1..])
  {
    assert OccursAt(p, ":", k);
    forall j | 0 <= j < k ensures !OccursAt(p, ":", j) {
      assert p[j..j + 1][0] == p[j];
    }
    SplitFirst(p, ":", k);
    JoinSplit(p[k + 1..], ":");
  }

  /** A line without a colon gives an empty id. */
  lemma IdWithoutColon(p: string)
    requires ':' !in p
    ensures IdOf(p) == ""
  {
    forall i | 0 <= i < |p| ensures !OccursAt(p, ":", i) {
      assert p[i..i + 1][0] == p[i] && p[i] in p;
    }
    SplitNone(p, ":");
  }

  /** The ticket id the handler keeps: that of the last id line, or empty. */
  function MetaId(lines: seq<string>): string {
    LastValue(lines, IsIdLine, IdOf, "")
  }

  /** The date the handler keeps: the last line with four digits that is not an id line, or empty. */
  function MetaDate(lines: seq<string>): string {
    LastValue(lines, IsDateLine, (p: string) => p, "")
  }

  /** `parts.forEach(...)`: each id line overwrites `id`, each other line with four digits overwrites `date`. */
  method ParseMeta(lines: seq<string>) returns (id: string, date: string)
    ensures id == MetaId(lines) && date == MetaDate(lines)
  {
    id, date := "", "";
    var i := 0;
    while i < |lines|
      invariant 0 <= i <= |lines|
      invariant id == MetaId(lines[..i]) && date == MetaDate(lines[..i])
    {
      var p := lines[i];
      LastValueSnoc(lines, i, IsIdLine, IdOf, "");
      LastValueSnoc(lines, i, IsDateLine, (p: string) => p, "");
      if IsIdLine(p) {
        id := IdOf(p);
      } else if HasFourDigits(p) {
        date := p;
      }
      i := i + 1;
    }
    assert lines[..i] == lines;
  }

  /** The id kept is that of the last id line; earlier id lines are overwritten. */
  lemma LastIdWins(lines: seq<string>, i: nat)
    requires i < |lines| && IsIdLine(lines[i])
    requires forall k :: i < k < |lines| ==> !IsIdLine(lines[k])
    ensures MetaId(lines) == IdOf(lines[i])
  {
    LastWhereAt(lines, IsIdLine, i);
  }

  /** The date kept is the last line with four digits that is not an id line. */
  lemma LastDateWins(lines: seq<string>, i: nat)
    requires i < |lines| && IsDateLine(lines[i])
    requires forall k :: i < k < |lines| ==> !IsDateLine(lines[k])
    ensures MetaDate(lines) == lines[i]
  {
    LastWhereAt(lines, IsDateLine, i);
  }

  /** `escapeHtml(v || 'N/A')`. */
  function Field(v: string): string {
    EscapeHtml(if v == "" then "N/A" else v)
  }

  /** What the details modal shows: each field escaped. */
  datatype Modal = Modal(title: string, id: string, status: string, date: string, message: string)

  /** The text of an element, trimmed, or `fallback` when the element is absent. */
  function TextOr(e: Option<string>, fallback: string): string {
    if e.Some? then Trim(e.value) else fallback
  }

  /** HTML-safe: none of `<`, `>`, `"`, `'`. */
  predicate Safe(s: string) {
    '<' !in s && '>' !in s && '"' !in s && '\'' !in s
  }

  /**
   * The click handler on a ticket card: the `strong` title, the badge status, the
   * meta block and the paragraph, each `None` when the element is absent. Every
   * field of the modal is escaped.
   */
  function TicketModal(title: Option<string>, badge: Option<string>, meta: Option<string>, paragraph: Option<string>): (m: Modal)
    ensures Safe(m.title) && Safe(m.id) && Safe(m.status) && Safe(m.date) && Safe(m.message)
    ensures meta.Some? ==> m.id == Field(MetaId(Lines(meta.value))) && m.date == Field(MetaDate(Lines(meta.value)))
  {
    var lines := if meta.Some? then Lines(meta.value) else [];
    var t, s, i, d := TextOr(title, "Ticket"), TextOr(badge, ""), MetaId(lines), MetaDate(lines);
    var msg := TextOr(paragraph, "No additional details available.");
    EscapedIsSafe(t);
    EscapedIsSafe(if s == "" then "N/A" else s);
    EscapedIsSafe(if i == "" then "N/A" else i);
    EscapedIsSafe(if d == "" then "N/A" else d);
    EscapedIsSafe(msg);
    Modal(EscapeHtml(t), Field(i), Field(s), Field(d), EscapeHtml(msg))
  }

  /** A card without a meta block shows `N/A` for its id and date; without a badge, for its status. */
  lemma MissingFieldsShowNA(title: Option<string>, badge: Option<string>, paragraph: Option<string>)
    ensures TicketModal(title, badge, None, paragraph).id == "N/A"
    ensures TicketModal(title, badge, None, paragraph).date == "N/A"
    ensures badge.None? ==> TicketModal(title, badge, None, paragraph).status == "N/A"
  {
    PlainUnchanged("N/A");
  }

  // ---------------------------------------------------------------- tracking

  const EnterNumber: string := "Veuillez entrer un numéro de suivi."

  /** What a click on the tracking button does in the backend script. */
  datatype TrackClick = ShowError(message: string) | Fetch(number: string)

  /** The click: the trimmed input (empty without the input element) is requested, unless it is empty. */
  function OnTrackClick(input: Option<string>): (c: TrackClick)
    ensures c.ShowError? <==> input.None? || Trim(input.value) == ""
    ensures c.ShowError? ==> c.message == EnterNumber
    ensures c.Fetch? ==> c.number != "" && !IsSpace(c.number[0]) && !IsSpace(c.number[|c.number| - 1])
  {
    var number := if input.Some? then Trim(input.value) else "";
    if number == "" then ShowError(EnterNumber) else Fetch(number)
  }

  /** The error is shown exactly when the input is missing or made of blanks only. */
  lemma BlankInputShowsError(input: Option<string>)
    ensures OnTrackClick(input).ShowError? <==> input.None? || AllSpace(input.value)
  {
    if input.Some? {
      TrimEmpty(input.value);
    }
  }

  /** The fields of the JSON answer the card reads; `None` is a missing field. */
  datatype Answer = Answer(tracking: Option<string>, status: Option<string>, estimatedDelivery: Option<string>,
                           progress: Option<int>, events: Option<seq<string>>)

  /** The tracking card. */
  datatype Card = Card(tracking: string, status: string, estimatedDelivery: string, progress: int, events: seq<string>)

  /** `v || fallback` for a string. */
  function Or(v: Option<string>, fallback: string): string {
    if v.Some? && v.value != "" then v.value else fallback
  }

  /** The card built from the answer: each missing or falsy field gets its default. */
  function Defaulted(a: Answer, number: string): (c: Card)
    ensures a.tracking.None? || a.tracking.value == "" ==> c.tracking == number
    ensures a.status.None? || a.status.value == "" ==> c.status == ""
    ensures a.estimatedDelivery.None? || a.estimatedDelivery.value == "" ==> c.estimatedDelivery == ""
    ensures a.progress.None? ==> c.progress == 0
    ensures a.events.None? ==> c.events == []
    ensures number != "" ==> c.tracking != ""
    ensures a.tracking.Some? && a.tracking.value != "" ==> c.tracking == a.tracking.value
    ensures a.status.Some? && a.status.value != "" ==> c.status == a.status.value
    ensures a.estimatedDelivery.Some? && a.estimatedDelivery.value != "" ==> c.estimatedDelivery == a.estimatedDelivery.value
    ensures a.progress.Some? ==> c.progress == a.progress.value
    ensures a.events.Some? ==> c.events == a.events.value
  {
    Card(Or(a.tracking, number), Or(a.status, ""), Or(a.estimatedDelivery, ""),
         if a.progress.Some? then a.progress.value else 0,
         if a.events.Some? then a.events.value else [])
  }

  /** A card read back as a complete answer gives the same card: the defaults are a fixed point. */
  lemma DefaultedStable(a: Answer, number: string)
    ensures var c := Defaulted(a, number);
      Defaulted(Answer(Some(c.tracking), Some(c.status), Some(c.estimatedDelivery), Some(c.progress), Some(c.events)), number) == c
  {
  }

  /** What a click does in the frontend script: the error, or the placeholder card. */
  datatype FrontendClick = Rejected(message: string) | Placeholder(card: Card)

  function OnFrontendTrackClick(input: string): (c: FrontendClick)
    ensures c.Rejected? <==> Trim(input) == ""
    ensures c.Placeholder? ==> c.card == Card("", "", "", 0, [])
  {
    if Trim(input) == "" then Rejected(EnterNumber) else Placeholder(Card("", "", "", 0, []))
  }

  /** The frontend rejects exactly the inputs made of blanks only. */
  lemma FrontendBlankRejected(input: string)
    ensures OnFrontendTrackClick(input).Rejected? <==> AllSpace(input)
  {
    TrimEmpty(input);
  }
}
