/**
 * The staff clients page (backend/static/js/DASHclients.js): the table filter
 * with its two call forms, `clearFilter`, and the first-match cookie reader.
 */
module ClientsPage {
  import opened Wrappers
  import opened Text
  import opened TableFilter
  import opened Cookies

  /** `map[field]`: the column of each searchable field. */
  function Column(field: string): Option<nat> {
    match field
    case "id" => Some(0)
    case "nom" => Some(1)
    case "prenom" => Some(2)
    case "email" => Some(3)
    case "telephone" => Some(4)
    case "adresse" => Some(5)
    case "ville" => Some(6)
    case "pays" => Some(7)
    case _ => None
  }

  /** The text `all` mode searches: id, nom, prenom, email, ville and pays, joined by spaces. */
  function Haystack(cells: seq<string>): string {
    Join(Searched(cells), " ")
  }

  /** The six lower-cased cells of `all` mode, in the template's order. */
  function Searched(cells: seq<string>): seq<string> {
    [Cell(cells, 0), Cell(cells, 1), Cell(cells, 2), Cell(cells, 3), Cell(cells, 6), Cell(cells, 7)]
  }

  /** Whether a row stays displayed for the given field and (lower-cased) term. */
  function RowVisible(cells: seq<string>, field: string, term: string): bool {
    if term == "" then true
    else if field == "all" then Contains(Haystack(cells), term)
    else
      match Column(field)
      case Some(i) => Contains(Cell(cells, i), term)
      case None => Contains("", term)
  }

  /** `filterClients(...)` over the table's rows: every row gets a display. */
  method FilterClients(rows: seq<TableFilter.Row>, shown: array<bool>, fieldOrTerm: JsArg, maybeTerm: JsArg)
    requires shown.Length == |rows|
    modifies shown
    ensures forall i :: 0 <= i < |rows| ==>
      shown[i] == RowVisible(rows[i].cells, ResolveArgs(fieldOrTerm, maybeTerm).0, ResolveArgs(fieldOrTerm, maybeTerm).1)
  {
    var (field, term) := ResolveArgs(fieldOrTerm, maybeTerm);
    TableFilter.Apply(rows, shown, (r: TableFilter.Row) => Some(RowVisible(r.cells, field, term)));
  }

  /** An empty term shows every row, whatever the field. */
  lemma EmptyTermShowsAll(cells: seq<string>, field: string)
    ensures RowVisible(cells, field, "")
  {
  }

  /** In `all` mode the telephone and address columns play no part. */
  lemma AllIgnoresPhoneAndAddress(cells: seq<string>, telephone: string, adresse: string, term: string)
    requires |cells| >= 6
    ensures RowVisible(cells[4 := telephone][5 := adresse], "all", term) == RowVisible(cells, "all", term)
  {
    var other := cells[4 := telephone][5 := adresse];
    assert Searched(other) == Searched(cells);
  }

  /** In `all` mode a term found in any of the six searched columns shows the row. */
  lemma AllFindsEachColumn(cells: seq<string>, j: nat, term: string)
    requires j in {0, 1, 2, 3, 6, 7}
    requires Contains(Cell(cells, j), term)
    ensures RowVisible(cells, "all", term)
  {
    var k := if j < 4 then j else j - 2;
    assert Searched(cells)[k] == Cell(cells, j);
    ContainsInJoin(Searched(cells), " ", k, term);
  }

  /** In field mode only the mapped column is searched; an unknown field hides every row once a term is typed. */
  lemma FieldModeSpec(cells: seq<string>, field: string, term: string)
    requires term != "" && field != "all"
    ensures Column(field).Some? ==> RowVisible(cells, field, term) == Contains(Cell(cells, Column(field).value), term)
    ensures Column(field).None? ==> !RowVisible(cells, field, term)
  {
    if Column(field).None? {
      NothingInEmpty(term);
    }
  }

  /** The filter controls of the page. */
  class ClientsPage {
    var filterField: string
    var filterValue: string
    var clientSearch: string

    constructor ()
      ensures filterField == "all" && filterValue == "" && clientSearch == ""
    {
      filterField := "all";
      filterValue := "";
      clientSearch := "";
    }

    /** `clearFilter`: the controls are reset and every row is displayed again. */
    method ClearFilter(rows: seq<TableFilter.Row>, shown: array<bool>)
      requires shown.Length == |rows|
      modifies this, shown
      ensures filterField == "all" && filterValue == "" && clientSearch == ""
      ensures forall i :: 0 <= i < |rows| ==> shown[i]
    {
      filterField := "all";
      filterValue := "";
      clientSearch := "";
      FilterClients(rows, shown, Str("all"), Str(""));
    }
  }

  // ---------------------------------------------------------------- getCookie

  /** `getCookie(name)`: `null` without cookies, otherwise the loop over `document.cookie.split(';')`. */
  method GetCookie(cookie: string, name: string, decode: string -> string) returns (v: Option<string>)
    ensures v == FirstCookie(cookie, name, decode)
  {
    v := None;
    if cookie != "" {
      v := FirstNamed(Split(cookie, ";"), name, decode);
    }
  }

  /** The `for` loop of `getCookie`: it stops at the first cookie with the name. */
  method FirstNamed(cookies: seq<string>, name: string, decode: string -> string) returns (v: Option<string>)
    ensures v == FirstIn(cookies, name, decode)
  {
    var i := 0;
    while i < |cookies|
      invariant 0 <= i <= |cookies|
      invariant forall k :: 0 <= k < i ==> !IsNamed(cookies[k], name)
    {
      if IsNamed(cookies[i], name) {
        FirstInAt(cookies, name, decode, i);
        return Some(ValueAt(cookies, i, name, decode));
      }
      i := i + 1;
    }
    return None;
  }
}
