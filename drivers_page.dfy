/**
 * The staff drivers page (backend/static/js/drivers.js): the split-based cookie
 * reader and the driver table filter with its two call forms.
 */
module DriversPage {
  import opened Wrappers
  import opened Text
  import opened TableFilter

  // ---------------------------------------------------------------- getCookie

  /** The separator `getCookie` splits on. */
  function Marker(name: string): string {
    "; " + name + "="
  }

  /** The cookie header with `; ` in front, so that the first cookie is found like the others. */
  function Prefixed(cookie: string): string {
    "; " + cookie
  }

  /**
   * `getCookie(name)`: split the prefixed header on `; name=`; with exactly two
   * pieces, the text of the second up to its first `;`; otherwise `null`. The
   * value is not decoded.
   */
  function GetCookie(cookie: string, name: string): (r: Option<string>)
    ensures r.Some? ==> forall k :: 0 <= k < |r.value| ==> r.value[k] != ';'
  {
    var parts := Split(Prefixed(cookie), Marker(name));
    if |parts| == 2 then
      SplitHead(parts[1], ';');
      Some(Split(parts[1], ";")[0])
    else None
  }

  /** A name that occurs once gives the text after `name=` up to the next `;` or the end. */
  lemma CookieOnce(cookie: string, name: string, i: nat)
    requires OccursAt(Prefixed(cookie), Marker(name), i)
    requires forall j :: OccursAt(Prefixed(cookie), Marker(name), j) ==> j == i
    ensures var rest := Prefixed(cookie)[i + |Marker(name)|..];
      var r := GetCookie(cookie, name);
      r.Some? && StartsWith(rest, r.value) && (|r.value| == |rest| || rest[|r.value|] == ';')
  {
    var rest := Prefixed(cookie)[i + |Marker(name)|..];
    SplitUnique(Prefixed(cookie), Marker(name), i);
    SplitHead(rest, ';');
  }

  /** A name that does not occur gives `null`. */
  lemma CookieMissing(cookie: string, name: string)
    requires forall i :: !OccursAt(Prefixed(cookie), Marker(name), i)
    ensures GetCookie(cookie, name).None?
  {
    SplitNone(Prefixed(cookie), Marker(name));
  }

  /** A name that occurs twice gives `null`, even when both cookies carry the same value. */
  lemma CookieRepeated(cookie: string, name: string, i: nat, j: nat)
    requires OccursAt(Prefixed(cookie), Marker(name), i) && OccursAt(Prefixed(cookie), Marker(name), j)
    requires i + |Marker(name)| <= j
    ensures GetCookie(cookie, name).None?
  {
    SplitTwo(Prefixed(cookie), Marker(name), i, j);
  }

  /** Conversely, a value is returned only when the marker occurs, and never twice apart. */
  lemma CookieFoundOccurs(cookie: string, name: string)
    requires GetCookie(cookie, name).Some?
    ensures exists i :: OccursAt(Prefixed(cookie), Marker(name), i)
    ensures forall i, j ::
      OccursAt(Prefixed(cookie), Marker(name), i) && OccursAt(Prefixed(cookie), Marker(name), j) ==> j < i + |Marker(name)|
  {
    if forall i :: !OccursAt(Prefixed(cookie), Marker(name), i) {
      CookieMissing(cookie, name);
    }
    forall i, j | OccursAt(Prefixed(cookie), Marker(name), i) && OccursAt(Prefixed(cookie), Marker(name), j)
      ensures j < i + |Marker(name)|
    {
      if i + |Marker(name)| <= j {
        CookieRepeated(cookie, name, i, j);
      }
    }
  }

  // ---------------------------------------------------------------- filterDrivers

  /** `map[field]`: the column of each searchable field. */
  function Column(field: string): Option<nat> {
    match field
    case "id" => Some(0)
    case "nom" => Some(1)
    case "prenom" => Some(2)
    case "email" => Some(3)
    case "telephone" => Some(4)
    case "permis" => Some(5)
    case "status" => Some(6)
    case _ => None
  }

  /** The seven lower-cased cells of `all` mode, in the template's order. */
  function Searched(cells: seq<string>): seq<string> {
    [Cell(cells, 0), Cell(cells, 1), Cell(cells, 2), Cell(cells, 3), Cell(cells, 4), Cell(cells, 5), Cell(cells, 6)]
  }

  /** The text `all` mode searches: the seven cells joined by spaces. */
  function Haystack(cells: seq<string>): string {
    Join(Searched(cells), " ")
  }

  /**
   * The display a row gets for the given field and (lower-cased) term: a row
   * without cells is skipped, an empty term shows the row.
   */
  function Decision(cells: seq<string>, field: string, term: string): (d: Option<bool>)
    ensures d.None? <==> cells == []
  {
    if cells == [] then None
    else if term == "" then Some(true)
    else if field == "all" then Some(Contains(Haystack(cells), term))
    else
      match Column(field)
      case Some(i) => Some(Contains(Cell(cells, i), term))
      case None => Some(Contains("", term))
  }

  /** `filterDrivers(...)` over the table's rows. */
  method FilterDrivers(rows: seq<Row>, shown: array<bool>, fieldOrTerm: JsArg, maybeTerm: JsArg)
    requires shown.Length == |rows|
    modifies shown
    ensures forall i :: 0 <= i < |rows| ==>
      shown[i] == Decided(Decision(rows[i].cells, ResolveArgs(fieldOrTerm, maybeTerm).0,
                                   ResolveArgs(fieldOrTerm, maybeTerm).1), old(shown[i]))
  {
    var (field, term) := ResolveArgs(fieldOrTerm, maybeTerm);
    Apply(rows, shown, (r: Row) => Decision(r.cells, field, term));
  }

  /** An empty term shows every row that has cells, whatever the field. */
  lemma EmptyTermShowsAll(cells: seq<string>, field: string)
    requires cells != []
    ensures Decision(cells, field, "") == Some(true)
  {
  }

  /** In `all` mode a term found in any of the seven columns, telephone, permis and status included, shows the row. */
  lemma AllFindsEachColumn(cells: seq<string>, j: nat, term: string)
    requires cells != [] && term != "" && j < 7
    requires Contains(Cell(cells, j), term)
    ensures Decision(cells, "all", term) == Some(true)
  {
    assert Searched(cells)[j] == Cell(cells, j);
    ContainsInJoin(Searched(cells), " ", j, term);
  }

  /** In field mode only the mapped column is searched; an unknown field hides the row once a term is typed. */
  lemma FieldModeSpec(cells: seq<string>, field: string, term: string)
    requires cells != [] && term != "" && field != "all"
    ensures Column(field).Some? ==> Decision(cells, field, term) == Some(Contains(Cell(cells, Column(field).value), term))
    ensures Column(field).None? ==> Decision(cells, field, term) == Some(false)
  {
    if Column(field).None? {
      NothingInEmpty(term);
    }
  }
}
