/**
 * The staff invoices page (backend/static/js/invoices.js): the last-match cookie
 * reader, the search over row texts captured at load, and the badge of an edited row.
 */
module InvoicesPage {
  import opened Wrappers
  import opened Text
  import opened Cookies

  // ---------------------------------------------------------------- getCookie

  /** `getCookie(name)`: `null` without cookies, otherwise the `forEach` over `document.cookie.split(';')`. */
  method GetCookie(cookie: string, name: string, decode: string -> string) returns (v: Option<string>)
    ensures v == LastCookie(cookie, name, decode)
  {
    v := None;
    if cookie != "" {
      v := LastNamed(Split(cookie, ";"), name, decode);
    }
  }

  /** The `forEach` of `getCookie`: each cookie with the name overwrites the value. */
  method LastNamed(cookies: seq<string>, name: string, decode: string -> string) returns (v: Option<string>)
    ensures v == LastIn(cookies, name, decode)
  {
    v := None;
    var i := 0;
    while i < |cookies|
      invariant 0 <= i <= |cookies|
      invariant v == LastIn(cookies[..i], name, decode)
    {
      LastInStep(cookies, i, name, decode);
      if IsNamed(cookies[i], name) {
        v := Some(ValueAt(cookies, i, name, decode));
      }
      i := i + 1;
    }
    assert cookies[..i] == cookies;
  }

  // ---------------------------------------------------------------- search

  /** A row stays displayed iff the text captured at load contains the lower-cased term. */
  predicate Matches(snapshot: string, input: string) {
    Contains(snapshot, Lower(input))
  }

  /** An empty search shows every row. */
  lemma EmptySearchShowsAll(snapshot: string)
    ensures Matches(snapshot, "")
  {
    ContainsEmpty(snapshot);
  }

  /**
   * The search ignores case: texts that differ only in case, captured lower-cased,
   * and inputs that differ only in case give the same match.
   */
  lemma SearchIgnoresCase(text: string, text': string, input: string, input': string)
    requires Lower(text) == Lower(text') && Lower(input) == Lower(input')
    ensures Matches(Lower(text), input) == Matches(Lower(text'), input')
  {
  }

  /**
   * The invoice table: each row's current text, the lower-cased copy stored in
   * `row.dataset.search` when the page loaded, and whether the row is displayed.
   */
  class InvoiceTable {
    var texts: seq<string>
    var search: seq<string>
    var shown: seq<bool>

    ghost predicate Valid()
      reads this
    {
      |texts| == |search| == |shown|
    }

    /** `DOMContentLoaded`: every row's lower-cased text is captured once; every row is displayed. */
    constructor (rows: seq<string>)
      ensures Valid() && texts == rows
      ensures forall i :: 0 <= i < |rows| ==> search[i] == Lower(rows[i]) && shown[i]
    {
      texts := rows;
      var captured: seq<string> := [];
      var i := 0;
      while i < |rows|
        invariant 0 <= i <= |rows| && |captured| == i
        invariant forall k :: 0 <= k < i ==> captured[k] == Lower(rows[k])
      {
        captured := captured + [Lower(rows[i])];
        i := i + 1;
      }
      search := captured;
      shown := seq(|rows|, _ => true);
    }

    /** The `input` handler: every row is displayed iff its captured text contains the lower-cased term. */
    method Search(input: string)
      requires Valid()
      modifies this
      ensures Valid() && texts == old(texts) && search == old(search)
      ensures forall i :: 0 <= i < |search| ==> shown[i] == Matches(search[i], input)
    {
      var term := Lower(input);
      var display: seq<bool> := [];
      var i := 0;
      while i < |search|
        invariant 0 <= i <= |search| && |display| == i
        invariant forall k :: 0 <= k < i ==> display[k] == Matches(search[k], input)
      {
        display := display + [Contains(search[i], term)];
        i := i + 1;
      }
      shown := display;
    }

    /**
     * A successful edit rewrites the row's cells, but not its captured text: the
     * search keeps matching what the row said at load.
     */
    method EditRow(i: nat, text: string)
      requires Valid() && i < |texts|
      modifies this
      ensures Valid() && texts == old(texts)[i := text]
      ensures search == old(search) && shown == old(shown)
    {
      texts := texts[i := text];
    }
  }

  // ---------------------------------------------------------------- badge

  const Success: string := "<span class=\"badge success\">"
  const Danger: string := "<span class=\"badge danger\">"

  /** The status cell of an edited row: a green badge iff the status is `paid`, showing the raw status. */
  function EditedBadge(status: string): (b: string)
    ensures StartsWith(b, Success) <==> status == "paid"
    ensures StartsWith(b, Danger) <==> status != "paid"
    ensures EndsWith(b, status + "</span>")
    ensures var p := if status == "paid" then Success else Danger;
      |b| == |p| + |status| + 7 && b[|p|..|b| - 7] == status
  {
    var p := if status == "paid" then Success else Danger;
    var b := p + status + "</span>";
    assert b[19] == p[19];
    assert b[|p|..] == status + "</span>";
    assert b[|b| - |status + "</span>"|..] == status + "</span>";
    b
  }
}
