/**
 * The staff incidents page (backend/static/js/incidents.js): the combined
 * search and field filter, and the status and priority badges.
 */
module IncidentsPage {
  import opened Wrappers
  import opened Text
  import opened TableFilter

  // ---------------------------------------------------------------- applyFilter

  /** The filter field selects this column (`filterField === 'all' || filterField === target`). */
  predicate Tests(field: string, target: string) {
    field == "all" || field == target
  }

  /**
   * The field filter passes: one of the id (0), type (1), priority (3) or status (5)
   * cells the field selects contains the lower-cased filter value.
   */
  predicate FieldMatch(cells: seq<string>, field: string, value: string)
    requires |cells| >= 7
  {
    (Tests(field, "id") && Contains(Lower(cells[0]), value))
    || (Tests(field, "type") && Contains(Lower(cells[1]), value))
    || (Tests(field, "priority") && Contains(Lower(cells[3]), value))
    || (Tests(field, "status") && Contains(Lower(cells[5]), value))
  }

  /**
   * A row with its seven cells stays displayed iff the search term is empty or in
   * the row's text, and the filter value is empty or passes the field filter.
   */
  predicate Visible(row: Row, search: string, field: string, value: string)
    requires |row.cells| >= 7
  {
    (search == "" || Contains(Lower(row.text), search))
    && (value == "" || FieldMatch(row.cells, field, value))
  }

  /** The display a row gets: a row with fewer than seven cells is skipped. */
  function Decision(row: Row, search: string, field: string, value: string): (d: Option<bool>)
    ensures d.None? <==> |row.cells| < 7
    ensures d.Some? ==> (d.value <==> Visible(row, search, field, value))
  {
    if |row.cells| < 7 then None else Some(Visible(row, search, field, value))
  }

  /** The body of the `forEach`: the `match` flag (here `matched`) set step by step. */
  method RowMatch(row: Row, search: string, field: string, value: string) returns (matched: bool)
    requires |row.cells| >= 7
    ensures matched == Visible(row, search, field, value)
  {
    matched := true;
    if search != "" {
      if !Contains(Lower(row.text), search) {
        matched := false;
      }
    }
    if matched && value != "" {
      matched := false;
      if field == "all" || field == "id" {
        if Contains(Lower(row.cells[0]), value) {
          matched := true;
        }
      }
      if !matched && (field == "all" || field == "type") {
        if Contains(Lower(row.cells[1]), value) {
          matched := true;
        }
      }
      if !matched && (field == "all" || field == "priority") {
        if Contains(Lower(row.cells[3]), value) {
          matched := true;
        }
      }
      if !matched && (field == "all" || field == "status") {
        if Contains(Lower(row.cells[5]), value) {
          matched := true;
        }
      }
    }
  }

  /** `applyFilter()`: the inputs are lower-cased once (the field is not), then each row gets its display. */
  method ApplyFilter(rows: seq<Row>, shown: array<bool>, searchInput: string, filterField: string, filterInput: string)
    requires shown.Length == |rows|
    modifies shown
    ensures forall i :: 0 <= i < |rows| ==>
      shown[i] == Decided(Decision(rows[i], Lower(searchInput), filterField, Lower(filterInput)), old(shown[i]))
  {
    var search := Lower(searchInput);
    var value := Lower(filterInput);
    var i := 0;
    while i < |rows|
      invariant 0 <= i <= |rows|
      invariant forall k :: 0 <= k < i ==> shown[k] == Decided(Decision(rows[k], search, filterField, value), old(shown[k]))
      invariant forall k :: i <= k < |rows| ==> shown[k] == old(shown[k])
    {
      if |rows[i].cells| >= 7 {
        var m := RowMatch(rows[i], search, filterField, value);
        shown[i] := m;
      }
      i := i + 1;
    }
  }

  /** The filter ignores case: a search term and a filter value that differ only in case give the same display. */
  lemma CaseInsensitive(row: Row, search: string, search': string, field: string, value: string, value': string)
    requires Lower(search) == Lower(search') && Lower(value) == Lower(value')
    ensures Decision(row, Lower(search), field, Lower(value)) == Decision(row, Lower(search'), field, Lower(value'))
  {
  }

  /** With both inputs empty every row with its seven cells is displayed. */
  lemma EmptyInputsShowAll(row: Row, field: string)
    requires |row.cells| >= 7
    ensures Decision(row, "", field, "") == Some(true)
  {
  }

  /** Field `all` passes iff one of the four single fields passes. */
  lemma AllIsAnyField(cells: seq<string>, value: string)
    requires |cells| >= 7
    ensures FieldMatch(cells, "all", value) <==>
      FieldMatch(cells, "id", value) || FieldMatch(cells, "type", value)
      || FieldMatch(cells, "priority", value) || FieldMatch(cells, "status", value)
  {
  }

  /** The description (2), the column at 4 and the date (6) never take part in the field filter. */
  lemma OtherColumnsIgnored(cells: seq<string>, field: string, value: string, c2: string, c4: string, c6: string)
    requires |cells| >= 7
    ensures FieldMatch(cells[2 := c2][4 := c4][6 := c6], field, value) == FieldMatch(cells, field, value)
  {
  }

  /** A field outside all, id, type, priority and status hides every row once a filter value is typed. */
  lemma UnknownFieldHides(row: Row, search: string, field: string, value: string)
    requires |row.cells| >= 7 && value != ""
    requires field !in {"all", "id", "type", "priority", "status"}
    ensures Decision(row, search, field, value) == Some(false)
  {
  }

  // ---------------------------------------------------------------- badges

  const Open: string := "<span class=\"badge\">"
  const Close: string := "</span>"

  /** The badge of a value the table does not know: the raw value in a plain badge. */
  function Generic(v: string): (b: string)
    ensures StartsWith(b, Open) && EndsWith(b, Close) && |b| == |Open| + |v| + |Close|
    ensures b[|Open|..|b| - |Close|] == v
  {
    Open + v + Close
  }

  function StatusBadges(): map<string, string> {
    map[
      "resolved" := "<span class=\"badge success\">Resolved</span>",
      "in_progress" := "<span class=\"badge info\">In Progress</span>",
      "open" := "<span class=\"badge warning\">Open</span>",
      "new" := "<span class=\"badge warning\">New</span>",
      "closed" := "<span class=\"badge\">Closed</span>",
      "cancelled" := "<span class=\"badge\">Cancelled</span>"
    ]
  }

  function PriorityBadges(): map<string, string> {
    map[
      "critical" := "<span class=\"badge danger\">Critical</span>",
      "high" := "<span class=\"badge warning\">High</span>",
      "medium" := "<span class=\"badge info\">Medium</span>",
      "low" := "<span class=\"badge\">Low</span>"
    ]
  }

  /** `badges[key] || generic`: every entry of the tables is a non-empty string, so only a missing key falls back. */
  function Lookup(badges: map<string, string>, key: string): (b: string)
    ensures key !in badges ==> b == Generic(key)
    ensures key in badges && badges[key] != "" ==> b == badges[key]
    ensures key in badges && badges[key] == "" ==> b == Generic(key)
  {
    if key in badges && badges[key] != "" then badges[key] else Generic(key)
  }

  /** `getStatusBadge(status)`. */
  function StatusBadge(status: string): string {
    Lookup(StatusBadges(), status)
  }

  /** `getPriorityBadge(priority)`. */
  function PriorityBadge(priority: string): string {
    Lookup(PriorityBadges(), priority)
  }

  /** Different unknown values give different badges: the raw value can be read back. */
  lemma GenericInjective(v: string, w: string)
    ensures Generic(v) == Generic(w) <==> v == w
  {
    if Generic(v) == Generic(w) {
      assert v == Generic(v)[|Open|..|Generic(v)| - |Close|];
    }
  }

  /** Every entry of both tables is a non-empty string, so `||` never falls back for a known key. */
  lemma BadgesNonEmpty()
    ensures forall k :: k in StatusBadges() ==> StatusBadges()[k] != ""
    ensures forall k :: k in PriorityBadges() ==> PriorityBadges()[k] != ""
  {
  }

  /** The known statuses get their table entries, and an unknown status shows the raw value. */
  lemma StatusBadgeSpec(status: string)
    ensures status in StatusBadges() ==> StatusBadge(status) == StatusBadges()[status]
    ensures status == "resolved" ==> StatusBadge(status) == "<span class=\"badge success\">Resolved</span>"
    ensures status == "in_progress" ==> StatusBadge(status) == "<span class=\"badge info\">In Progress</span>"
    ensures status == "open" ==> StatusBadge(status) == "<span class=\"badge warning\">Open</span>"
    ensures status == "new" ==> StatusBadge(status) == "<span class=\"badge warning\">New</span>"
    ensures status == "closed" ==> StatusBadge(status) == "<span class=\"badge\">Closed</span>"
    ensures status == "cancelled" ==> StatusBadge(status) == "<span class=\"badge\">Cancelled</span>"
    ensures status !in {"resolved", "in_progress", "open", "new", "closed", "cancelled"} ==>
      StatusBadge(status) == Generic(status)
  {
    BadgesNonEmpty();
  }

  /**
   * The badge of `closed` is the plain badge a raw `Closed` would get, so the two
   * cannot be told apart on the page.
   */
  lemma ClosedLooksUnknown()
    ensures StatusBadge("closed") == StatusBadge("Closed")
  {
    assert "Closed" !in StatusBadges();
  }

  /** The known priorities get their table entries, and an unknown priority shows the raw value. */
  lemma PriorityBadgeSpec(priority: string)
    ensures priority in PriorityBadges() ==> PriorityBadge(priority) == PriorityBadges()[priority]
    ensures priority == "critical" ==> PriorityBadge(priority) == "<span class=\"badge danger\">Critical</span>"
    ensures priority == "high" ==> PriorityBadge(priority) == "<span class=\"badge warning\">High</span>"
    ensures priority == "medium" ==> PriorityBadge(priority) == "<span class=\"badge info\">Medium</span>"
    ensures priority == "low" ==> PriorityBadge(priority) == "<span class=\"badge\">Low</span>"
    ensures priority !in {"critical", "high", "medium", "low"} ==> PriorityBadge(priority) == Generic(priority)
  {
    BadgesNonEmpty();
  }
}
