/**
 * The loop every staff page runs to filter its table: walk the rows and set each
 * row's `style.display` from a per-row decision. A row is modelled by its cells'
 * text and its whole `textContent`; `shown[i]` is true when row i is displayed.
 */
module TableFilter {
  import opened Wrappers
  import opened Text

  datatype Row = Row(cells: seq<string>, text: string)

  /** The display after one decision: `Some(b)` shows or hides the row, `None` leaves it as it was. */
  function Decided(d: Option<bool>, current: bool): bool {
    if d.Some? then d.value else current
  }

  /**
   * `rows.forEach(row => { ... row.style.display = ... })`: every row gets its
   * decision, rows without one keep their display, and nothing else changes.
   */
  method Apply(rows: seq<Row>, shown: array<bool>, decide: Row -> Option<bool>)
    requires shown.Length == |rows|
    modifies shown
    ensures forall i :: 0 <= i < |rows| ==> shown[i] == Decided(decide(rows[i]), old(shown[i]))
  {
    var i := 0;
    while i < |rows|
      invariant 0 <= i <= |rows|
      invariant forall k :: 0 <= k < i ==> shown[k] == Decided(decide(rows[k]), old(shown[k]))
      invariant forall k :: i <= k < |rows| ==> shown[k] == old(shown[k])
    {
      var d := decide(rows[i]);
      if d.Some? {
        shown[i] := d.value;
      }
      i := i + 1;
    }
  }

  // ---------------------------------------------------------------- the two-signature filters

  /** A JavaScript argument: absent, `null`, or a string. */
  datatype JsArg = Undefined | Null | Str(s: string)

  /** `(a || fallback).toString()`: the falsy values give the fallback. */
  function OrElse(a: JsArg, fallback: string): string {
    if a.Str? && a.s != "" then a.s else fallback
  }

  /**
   * The field and the lower-cased term of `filterClients(fieldOrTerm, maybeTerm)`
   * and `filterDrivers(fieldOrTerm, maybeTerm)`: with one argument they search
   * every main field.
   */
  function ResolveArgs(fieldOrTerm: JsArg, maybeTerm: JsArg): (ft: (string, string))
    ensures maybeTerm.Undefined? ==> ft.0 == "all"
    ensures ft.1 == Lower(ft.1)
  {
    LowerIdempotent(OrElse(fieldOrTerm, ""));
    LowerIdempotent(OrElse(maybeTerm, ""));
    if maybeTerm.Undefined? then ("all", Lower(OrElse(fieldOrTerm, "")))
    else (OrElse(fieldOrTerm, "all"), Lower(OrElse(maybeTerm, "")))
  }

  /** The one-argument call is the two-argument call with field `all`. */
  lemma OneArgumentIsAll(term: string)
    ensures ResolveArgs(Str(term), Undefined) == ResolveArgs(Str("all"), Str(term))
  {
  }

  /** `row.cells[i]?.textContent.toLowerCase() || ''`. */
  function Cell(cells: seq<string>, i: nat): string {
    if i < |cells| then Lower(cells[i]) else ""
  }
}
