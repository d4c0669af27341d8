/**
 * The status rules of an incident (backend/database/models.py, class Incident):
 * `resolve` records a resolution, `close` closes a resolved incident, and
 * `is_active` tells the open statuses apart.
 */
module Incidents {
  import opened Wrappers
  import opened Text

  /** The statuses an incident is still being worked on in. */
  predicate IsActive(status: string) {
    status == "new" || status == "open" || status == "in_progress"
  }

  /** The fields `resolve` and `close` touch; the timestamp is an abstract clock reading. */
  datatype Record = Record(status: string, commentaire: string, resolutionDate: Option<int>)

  /** The line appended to the comment: `\n[RESOLUTION <stamp>]: <notes>`. */
  function ResolutionLine(stamp: string, notes: string): string {
    "\n[RESOLUTION " + stamp + "]: " + notes
  }

  /**
   * `resolve(notes)` at clock reading `now`, printed as `stamp`: the incident is
   * resolved and no longer active; the old comment is kept as a prefix and grows
   * exactly when the notes are non-empty, ending with them.
   */
  function Resolved(r: Record, notes: string, now: int, stamp: string): (s: Record)
    ensures s.status == "resolved" && !IsActive(s.status) && s.resolutionDate == Some(now)
    ensures StartsWith(s.commentaire, r.commentaire)
    ensures s.commentaire == r.commentaire <==> notes == ""
    ensures EndsWith(s.commentaire, notes)
  {
    var c := if notes == "" then r.commentaire else r.commentaire + ResolutionLine(stamp, notes);
    assert c[..|r.commentaire|] == r.commentaire;
    assert c[|c| - |notes|..] == notes;
    Record("resolved", c, Some(now))
  }

  /**
   * `close()`: only a resolved incident changes, and it becomes closed; the
   * comment and the resolution date are never touched.
   */
  function Closed(r: Record): (s: Record)
    ensures s.commentaire == r.commentaire && s.resolutionDate == r.resolutionDate
    ensures s != r <==> r.status == "resolved"
    ensures s.status == "closed" <==> r.status == "resolved" || r.status == "closed"
  {
    if r.status == "resolved" then r.(status := "closed") else r
  }

  /** Closing twice is closing once. */
  lemma CloseIdempotent(r: Record)
    ensures Closed(Closed(r)) == Closed(r)
  {
  }

  /** Whatever the incident was, resolving then closing leaves it closed and inactive. */
  lemma ResolveThenClose(r: Record, notes: string, now: int, stamp: string)
    ensures Closed(Resolved(r, notes, now, stamp)).status == "closed"
    ensures !IsActive(Closed(Resolved(r, notes, now, stamp)).status)
  {
  }

  /** `close` never changes whether an incident is active. */
  lemma CloseKeepsActivity(r: Record)
    ensures IsActive(Closed(r).status) == IsActive(r.status)
  {
  }

  /** An incident object; `resolve` and `close` update its fields in place. */
  class Incident {
    var status: string
    var commentaire: string
    var resolutionDate: Option<int>

    function State(): Record
      reads this
    {
      Record(status, commentaire, resolutionDate)
    }

    /** A new incident: status `new`, empty comment, no resolution date. */
    constructor ()
      ensures State() == Record("new", "", None) && IsActive(status)
    {
      status := "new";
      commentaire := "";
      resolutionDate := None;
    }

    method Resolve(notes: string, now: int, stamp: string)
      modifies this
      ensures State() == Resolved(old(State()), notes, now, stamp)
    {
      status := "resolved";
      resolutionDate := Some(now);
      if notes != "" {
        commentaire := commentaire + ResolutionLine(stamp, notes);
      }
    }

    method Close()
      modifies this
      ensures State() == Closed(old(State()))
    {
      if status == "resolved" {
        status := "closed";
      }
    }
  }
}
