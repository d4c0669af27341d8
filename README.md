# Delivery management system: a Dafny model of its core

This project models, in Dafny, the core of a delivery management system. The system has a
Django back end (records for clients, drivers, vehicles, expeditions, packages, shipments,
invoices, incidents and staff agents) and plain JavaScript pages for staff and clients.

## What is modelled

- **Identifiers.** Every `save()` of `backend/database/models.py` gives a new record a key of
  the form prefix plus a zero-padded counter (`CL000001`, `AG0001`, `SHP001`, ...):
  - it takes the greatest existing key in string order, in some cases only among keys with the
    kind's prefix;
  - it matches `PREFIX(\d+)$` against that key and adds one, or starts again at 1;
  - for drivers (`CH`) and expeditions (`SH`) the match result is not checked, so a malformed
    last key raises an error.

  Module `Identifiers` models all of this per kind: the regular expression, number formatting,
  string order, and a `Table` class whose `Save` inserts the new key.
- **Incidents.** `resolve`, `close` and `is_active` of the `Incident` model (module `Incidents`).
- **Agents.** The two staff roles, the permission properties and tables, and the password guard
  of `Agent.save()` (module `Agents`).
- **Tracking.** The public `track` endpoints of `backend/client/views.py` and
  `backend/api/views.py` (module `Tracking`).
- **Staff pages**, one module each:
  - `ShipmentBoard`: the in-memory shipment table with add, edit, select, delete, the client
    filter and the badge;
  - `ClientsPage` and `DriversPage`: the two-signature table filters and `clearFilter`;
  - `IncidentsPage`: the combined search and field filter, and the status and priority badges;
  - `InvoicesPage`: the load-time search snapshot and the edited-row badge.

  Three different `getCookie` readers appear on these pages:
  - first match in `ClientsPage`;
  - last match in `InvoicesPage`;
  - a split on `; name=` in `DriversPage`.

  Module `Cookies` holds what the first two share. `TableFilter` holds the row-display loop
  every page runs.
- **Client portal** (module `ClientPortal`), in both `client.js` files:
  - `escapeHtml`;
  - the ticket-details modal and how it reads the ticket's meta lines;
  - the tracking button.
- **Shared modules.** `Text` holds the string operations of JavaScript and Python that the model
  needs: split, join, trim, lower-case, includes and startsWith. `Wrappers` holds `Option` and
  `Result`.

Outside effects become parameters:
- clock readings are integers;
- the printed timestamp is a string parameter;
- `make_password` and `decodeURIComponent` are function parameters.

The DOM is modelled as sequences of row texts and cell texts. A `shown` array records which rows
are displayed.

## Model

| member | source | states |
|---|---|---|
| Text.Lower | backend/static/js/DASHclients.js:104-109 | `toLowerCase` keeps the length and maps every character on its own |
| Text.LowerIdempotent | backend/static/js/incidents.js:96-98 | lower-casing twice is lower-casing once, so a lower-cased term compares like the raw one |
| Text.Trim | backend/static/js/client.js:131 | `trim()` leaves no white space at either end |
| Text.TrimSlice | backend/static/js/client.js:131 | the trimmed string is a contiguous slice of the input |
| Text.TrimStartRemovesSpace | backend/static/js/client.js:131 | trimming the front removes only white space |
| Text.TrimEndRemovesSpace | backend/static/js/client.js:131 | trimming the back removes only white space |
| Text.TrimRemovesSpace | backend/static/js/client.js:131 | `trim()` returns the input with only white space cut from each end |
| Text.TrimEmpty | backend/static/js/client.js:10-17 | a string trims to empty exactly when it is all white space |
| Text.JoinSplit | backend/static/js/client.js:134 | joining the pieces of a split with the same separator gives back the string |
| Text.SplitHead | backend/static/js/drivers.js:10 | the first piece of `split(';')` contains no `;` |
| Identifiers.Pad | backend/database/models.py:83 | `f"{n:0wd}"` prints only digits, at least `w` of them |
| Identifiers.PadValue | backend/database/models.py:83 | reading back the printed digits gives the number |
| Identifiers.PadWidth | backend/database/models.py:769 | the printed width is exactly `w` iff the number is below 10^w |
| Identifiers.MatchNumberSpec | backend/database/models.py:78-79 | `re.search(PREFIX(\d+)$)` succeeds iff the key is some text, the prefix, a digit run and the end or one final newline; the number is that run's value |
| Identifiers.MatchNumber | backend/database/models.py:78-79 | `re.search(PREFIX(\d+)$)` then `int(m.group(1))`; its meaning is stated by `MatchNumberSpec` and `FormatRoundTrip` |
| Identifiers.FormatRoundTrip | backend/database/models.py:78-83 | matching the pattern on a printed identifier gives its number back |
| Identifiers.DigitsOrder | backend/database/models.py:75 | for digit strings of one length, string order is numeric order |
| Identifiers.Greatest | backend/database/models.py:73-75 | `order_by('-id').first()` returns a stored key that no other key exceeds in string order, and none only for an empty table |
| Identifiers.WithPrefix | backend/database/models.py:73-74 | `filter(id__startswith=...)` keeps exactly the keys that have the prefix |
| Identifiers.LastKey | backend/database/models.py:73-75 | the key the query returns is none only when no key is a candidate; otherwise it is a stored key, with the kind's prefix when the kind filters by it, and no candidate exceeds it in string order |
| Identifiers.NextNumber | backend/database/models.py:76-83 | fails exactly for CH and SH on an unmatched last key; otherwise the number is at least 1 |
| Identifiers.NextId | backend/database/models.py:256-264 | the next identifier fails exactly for CH and SH on an unmatched last key; otherwise it has the prefix and at least the kind's width |
| Identifiers.Allocate | backend/database/models.py:67-85 | a successful allocation has the kind's prefix and at least its width; a failure only for CH and SH, naming a stored key |
| Identifiers.NextIdReadsBack | backend/database/models.py:76-83 | the new identifier reads back as the last key's number plus one, or as 1 when there is no last key or it does not match |
| Identifiers.FirstIds | backend/database/models.py:80-83 | an empty table gives `CL000001`, `AG0001` and `SHP001` |
| Identifiers.MalformedLastKeyRestarts | backend/database/models.py:76-79 | an unmatched last key restarts at 1, except for CH and SH, which fail |
| Identifiers.KeyOrder | backend/database/models.py:75 | for keys of one prefix and one length, string order and equality are those of their numbers |
| Identifiers.NextIdWellFormed | backend/database/models.py:76-83 | a well-formed last key, or none, gives the identifier of the next number |
| Identifiers.AllocateWellFormed | backend/database/models.py:73-83 | with well-formed keys the allocation succeeds and continues from the greatest key's digits |
| Identifiers.AllocateFresh | backend/database/models.py:67-85 | with well-formed keys, while the number fits the width, the new key sorts after every key of the kind and is not taken |
| Identifiers.ShipmentWidthOverflow | backend/database/models.py:962-970 | `SHP1000` sorts below `SHP999`, so once both exist the allocator issues `SHP1000` again |
| Identifiers.Insert | backend/database/models.py:85 | `super().save()` stores the key, updating the row when the key exists |
| Identifiers.Table.Save | backend/database/models.py:67-85 | a given key is kept; an empty one gets the allocator's identifier, and the keys stay distinct |
| Incidents.Resolved | backend/database/models.py:481-486 | resolve sets status `resolved` and the resolution date; the comment grows exactly when notes are given, keeps the old text as a prefix and ends with the notes |
| Incidents.IsActive | backend/database/models.py:492-495 | `new`, `open` and `in_progress` are the active statuses; the lemmas below state how `resolve` and `close` change it |
| Incidents.Closed | backend/database/models.py:487-491 | close changes only a resolved incident, to `closed`, and never touches the comment or the date |
| Incidents.CloseIdempotent | backend/database/models.py:487-491 | closing twice is closing once |
| Incidents.ResolveThenClose | backend/database/models.py:481-495 | resolving then closing always leaves the incident closed and inactive |
| Incidents.CloseKeepsActivity | backend/database/models.py:487-495 | close never changes `is_active` |
| Incidents.Incident.constructor | backend/database/models.py:420-439 | a new incident is `new` and active, with an empty comment and no resolution date |
| Incidents.Incident.Resolve | backend/database/models.py:481-486 | the fields are updated in place to the resolved record |
| Incidents.Incident.Close | backend/database/models.py:487-491 | the fields are updated in place to the closed record |
| Agents.PeutSupprimerRule | backend/database/models.py:668-678 | anyone may delete expeditions, incidents and complaints; only an admin may delete clients, invoices and payments; nothing else may be deleted |
| Agents.AdminDominates | backend/database/models.py:600-705 | an admin has every permission an agent has; the system tasks and the three admin-only deletions are exactly what differ |
| Agents.UnknownRole | backend/database/models.py:600-606 | a role other than `agent` and `admin` has no system access and cannot delete clients |
| Agents.EstAgent | backend/database/models.py:599-601 | the role is exactly `agent`; its consequences are stated by `AdminDominates` and `UnknownRole` |
| Agents.EstAdmin | backend/database/models.py:603-605 | the role is exactly `admin`; its consequences are stated by `AdminDominates` and `UnknownRole` |
| Agents.PeutAccederSection | backend/database/models.py:611-643 | the seven section properties return true for every role |
| Agents.PeutSysteme | backend/database/models.py:646-664 | the four system properties are `est_admin` |
| Agents.PeutSupprimer | backend/database/models.py:667-678 | the deletion dictionary read with `.get(objet_type, False)`; `PeutSupprimerRule` states it as a rule |
| Agents.PeutImprimer | backend/database/models.py:679-689 | a document may be printed iff its type is one of the seven listed, whatever the role |
| Agents.PeutGenererRapport | backend/database/models.py:691-701 | a report may be generated iff its type is one of the seven listed, whatever the role |
| Agents.WithId | backend/database/models.py:547-558 | an empty or missing agent id is replaced by the allocator's next `AG` identifier, and that allocation succeeds; a set one is kept |
| Agents.FirstAgentId | backend/database/models.py:547-558 | the first agent saved into an empty table gets `AG0001` |
| Agents.SaveAsWritten | backend/database/models.py:545-564 | `save()` as written fills the id exactly as `WithId` does; the password is hashed if still clear text exactly when `update_fields` names it, and is otherwise left alone |
| Agents.NewAgentStoredInClear | backend/database/models.py:560-562 | a new agent saved plainly keeps a clear-text password |
| Agents.Save | backend/database/models.py:545-564 | corrected `save()`: the id as `WithId` fills it; on insert or when `update_fields` names the password, a clear-text password is hashed and a hashed one kept; otherwise the password is left alone |
| Agents.NewAgentStoredHashed | backend/database/models.py:560-562 | with the corrected guard a new agent's password is stored hashed, and an already hashed one is kept |
| Tracking.TrackingParam | backend/client/views.py:39 | the `number` parameter when truthy, else the `tracking` parameter when truthy, else nothing |
| Tracking.FindPackage | backend/client/views.py:44-47 | a package with the tracking number is found iff one exists |
| Tracking.ShipmentOf | backend/client/views.py:49-53 | the package's shipment is found iff one references it |
| Tracking.ShipmentsOfClient | backend/client/views.py:55 | exactly the shipments of the client's packages |
| Tracking.ExpeditionsOfClient | backend/api/views.py:99 | exactly the client's expeditions |
| Tracking.LatestShipmentForClient | backend/client/views.py:55 | none iff the client has no shipment; otherwise one of the client's shipments created no earlier than any other |
| Tracking.LatestExpedition | backend/api/views.py:99 | none iff the client has no expedition; otherwise one of the client's expeditions created no earlier than any other |
| Tracking.Latest | backend/client/views.py:55 | `order_by('-date_creation').first()` returns a record created no earlier than any other, and none only for an empty set |
| Tracking.StatusOf | backend/client/views.py:68-76 | Delivered iff the latest record is DELIVERED; otherwise In Transit iff there is a shipment, else Created |
| Tracking.ProgressSteps | backend/client/views.py:68-76 | progress is 5, 60 or 100, matching Created, In Transit and Delivered |
| Tracking.Events | backend/client/views.py:57-66 | at most three events |
| Tracking.ConcatRanks | backend/client/views.py:57-66 | appending at most one event of each rank, by rank, gives a strictly ordered list in which each rank is present iff its part is |
| Tracking.ConcatParts | backend/client/views.py:57-66 | an event of the list is the single event of the part its rank names |
| Tracking.EventsSpec | backend/client/views.py:57-66 | each event is present iff its source exists; they come in the order package, shipment, latest record; the shipment event uses the shipment date, else the creation time |
| Tracking.EventsContent | backend/client/views.py:58-66 | the package event is dated by the package's creation; the last event reads the heading followed by the latest record's status and is dated by that record's creation |
| Tracking.Assemble | backend/client/views.py:78-85 | the response carries the package's tracking number and client, a progress step, and the shipment's date as the estimate |
| Tracking.ClientTrack | backend/client/views.py:37-87 | 400 iff there is no number; 404 iff the package is unknown; otherwise the requested number with a progress step |
| Tracking.ClientTrackAsWritten | backend/client/views.py:65-68 | the view as written reads `statut`, which the `Shipment` model lacks, on the client's latest shipment |
| Tracking.AsWrittenFailsOnAnyShipment | backend/client/views.py:65-68 | the view as written differs from the corrected one exactly when the client has a shipment, and then answers 500 |
| Tracking.ApiTrack | backend/api/views.py:80-145 | the older view: same 400 and 404 cases, otherwise the requested number with a progress step |
| Tracking.ClientTrackStatus | backend/client/views.py:55-85 | for a found package: Delivered follows the client's latest shipment, In Transit the package's own shipment; the estimate and the events are those of that shipment |
| Tracking.ApiTrackStatus | backend/api/views.py:99-143 | the same reading, driven by the client's latest expedition |
| Tracking.DeliveredFollowsClient | backend/client/views.py:55-70 | a package whose own shipment is pending reads as Delivered when another of the client's packages was delivered later |
| TableFilter.Apply | backend/static/js/DASHshipments.js:152-162 | every row gets its decision, a row without one keeps its display, and nothing else changes |
| TableFilter.ResolveArgs | backend/static/js/DASHclients.js:70-81 | with one argument the field is `all`; the term is always lower-case |
| TableFilter.OneArgumentIsAll | backend/static/js/DASHclients.js:74-81 | the one-argument call behaves as the call with field `all` |
| ShipmentBoard.KeyForInjective | backend/static/js/DASHshipments.js:265 | different counters give different `SHP` keys, also past 999 |
| ShipmentBoard.SeedKeys | backend/static/js/DASHshipments.js:8-86 | the seven sample keys are those of counters 1 to 7 |
| ShipmentBoard.Edited | backend/static/js/DASHshipments.js:316-328 | an edit takes the form's seven fields and keeps the key and the image |
| ShipmentBoard.SeedKeySet | backend/static/js/DASHshipments.js:8-86 | the sample keys are exactly those of counters 1 to 7 |
| ShipmentBoard.SeedsSelfKeyed | backend/static/js/DASHshipments.js:8-86 | every sample is written under its own id, without an image |
| ShipmentBoard.SeedsFree | backend/static/js/DASHshipments.js:5 | a counter from 8 on, where the page starts, gives none of the sample keys |
| ShipmentBoard.Board.constructor | backend/static/js/DASHshipments.js:3-86 | the page starts with the seven samples, counter 8 and no selection, and no key from 8 on is taken |
| ShipmentBoard.Board.Select | backend/static/js/DASHshipments.js:134-144 | selecting a row makes its id current and changes nothing else |
| ShipmentBoard.Board.AddShipment | backend/static/js/DASHshipments.js:250-280 | an incomplete form changes nothing; otherwise the entry goes under the counter's key, which was free, and the counter moves on |
| ShipmentBoard.Board.SaveShipmentChanges | backend/static/js/DASHshipments.js:316-345 | an unknown id changes nothing; a known entry takes the form's fields |
| ShipmentBoard.Board.ConfirmDelete | backend/static/js/DASHshipments.js:347-365 | with a selection, only the selected key is removed and the selection is cleared; without one, nothing changes |
| ShipmentBoard.ClientDecision | backend/static/js/DASHshipments.js:152-161 | a row is left alone iff it has no client cell |
| ShipmentBoard.FilterShipments | backend/static/js/DASHshipments.js:147-163 | each row with a client cell is shown iff that cell contains the term, case ignored |
| ShipmentBoard.ClientFilterSpec | backend/static/js/DASHshipments.js:150-156 | the filter ignores case, an empty term shows every row with a client cell, and a term longer than the cell hides the row |
| ShipmentBoard.BadgeClass | backend/static/js/DASHshipments.js:368-375 | one of four classes, `info` iff the status is not Delivered, Pending or Failed |
| ShipmentBoard.BadgeDistinct | backend/static/js/DASHshipments.js:369-374 | the four statuses get their four classes |
| ClientsPage.FilterClients | backend/static/js/DASHclients.js:70-117 | each row is displayed iff it matches the resolved field and term |
| ClientsPage.EmptyTermShowsAll | backend/static/js/DASHclients.js:97-101 | an empty term shows every row |
| ClientsPage.AllIgnoresPhoneAndAddress | backend/static/js/DASHclients.js:103-111 | in `all` mode the telephone and address columns play no part |
| ClientsPage.AllFindsEachColumn | backend/static/js/DASHclients.js:103-111 | in `all` mode a term found in any of the six searched columns shows the row |
| ClientsPage.FieldModeSpec | backend/static/js/DASHclients.js:112-115 | a known field searches only its column; an unknown field hides every row |
| ClientsPage.ClientsPage.ClearFilter | backend/static/js/DASHclients.js:132-140 | the controls are reset and every row is displayed |
| ClientsPage.FirstNamed | backend/static/js/DASHclients.js:460-467 | the loop stops at the first cookie with the name and returns its decoded value |
| ClientsPage.GetCookie | backend/static/js/DASHclients.js:457-468 | the loop returns the decoded value of the first cookie with the name |
| Cookies.FirstCookie | backend/static/js/DASHclients.js:457-468 | no value iff the header is empty or no cookie has the name |
| Cookies.FirstInNone | backend/static/js/DASHclients.js:460-467 | no value iff no cookie has the name |
| Cookies.FirstInAt | backend/static/js/DASHclients.js:460-467 | a cookie with the name and none before it gives the value |
| Cookies.FirstCookieSpec | backend/static/js/DASHclients.js:461-466 | the value is that of the first cookie with the name |
| Cookies.LastCookie | backend/static/js/invoices.js:8-19 | no value iff the header is empty or no cookie has the name |
| Cookies.LastInNone | backend/static/js/invoices.js:11-16 | no value iff no cookie has the name |
| Cookies.LastInStep | backend/static/js/invoices.js:11-16 | one more cookie overwrites the value iff it has the name |
| Cookies.LastCookieSpec | backend/static/js/invoices.js:8-19 | the value is that of the last cookie with the name |
| Cookies.SingleCookieAgrees | backend/static/js/invoices.js:8-19 | with exactly one cookie of the name, the first-match and last-match readers agree |
| DriversPage.GetCookie | backend/static/js/drivers.js:7-12 | a returned value never contains `;` |
| DriversPage.CookieOnce | backend/static/js/drivers.js:7-12 | a name that occurs once gives the text after `name=` up to the next `;` |
| DriversPage.CookieMissing | backend/static/js/drivers.js:7-12 | a missing name gives no value |
| DriversPage.CookieRepeated | backend/static/js/drivers.js:7-12 | a name that occurs twice gives no value |
| DriversPage.CookieFoundOccurs | backend/static/js/drivers.js:7-12 | a value is returned only when the name occurs, and not twice |
| DriversPage.Decision | backend/static/js/drivers.js:294-312 | a row without cells is left alone |
| DriversPage.FilterDrivers | backend/static/js/drivers.js:281-314 | each row with cells is displayed iff it matches the resolved field and term |
| DriversPage.EmptyTermShowsAll | backend/static/js/drivers.js:296 | an empty term shows every row with cells |
| DriversPage.AllFindsEachColumn | backend/static/js/drivers.js:298-307 | in `all` mode a term found in any of the seven columns shows the row |
| DriversPage.FieldModeSpec | backend/static/js/drivers.js:308-311 | a known field searches only its column; an unknown field hides the row |
| IncidentsPage.Decision | backend/static/js/incidents.js:103-150 | a row with fewer than seven cells is left alone; the others are shown iff visible |
| IncidentsPage.RowMatch | backend/static/js/incidents.js:106-148 | the step-by-step flag ends equal to the visibility rule |
| IncidentsPage.ApplyFilter | backend/static/js/incidents.js:95-152 | each row gets its decision from the lower-cased inputs |
| IncidentsPage.CaseInsensitive | backend/static/js/incidents.js:96-98 | a search term and a filter value that differ only in case give the same decision for every row |
| IncidentsPage.EmptyInputsShowAll | backend/static/js/incidents.js:106-118 | with both inputs empty every full row is shown |
| IncidentsPage.AllIsAnyField | backend/static/js/incidents.js:121-148 | field `all` passes iff one of id, type, priority or status passes |
| IncidentsPage.OtherColumnsIgnored | backend/static/js/incidents.js:121-148 | columns 2, 4 and 6 never take part in the field filter |
| IncidentsPage.UnknownFieldHides | backend/static/js/incidents.js:117-150 | an unknown field hides every row once a value is typed |
| IncidentsPage.Generic | backend/static/js/incidents.js:318 | the fallback badge wraps the value, unchanged, in a plain badge |
| IncidentsPage.Lookup | backend/static/js/incidents.js:318 | a key in the table with a non-empty badge gets that badge; a missing key or an empty entry gets the fallback badge |
| IncidentsPage.StatusBadge | backend/static/js/incidents.js:309-319 | `getStatusBadge`: the status table looked up with the fallback; stated by `StatusBadgeSpec` |
| IncidentsPage.PriorityBadge | backend/static/js/incidents.js:321-329 | `getPriorityBadge`: the priority table looked up with the fallback; stated by `PriorityBadgeSpec` |
| IncidentsPage.GenericInjective | backend/static/js/incidents.js:318 | different values give different fallback badges |
| IncidentsPage.BadgesNonEmpty | backend/static/js/incidents.js:309-329 | no entry of the status or priority table is empty |
| IncidentsPage.StatusBadgeSpec | backend/static/js/incidents.js:309-319 | every status in the table gets its entry (the six statuses spelled out); any other status gets the fallback badge |
| IncidentsPage.ClosedLooksUnknown | backend/static/js/incidents.js:315 | `closed` shows the same badge as the unknown status `Closed` |
| IncidentsPage.PriorityBadgeSpec | backend/static/js/incidents.js:321-329 | every priority in the table gets its entry (the four priorities spelled out); any other priority gets the fallback badge |
| InvoicesPage.LastNamed | backend/static/js/invoices.js:11-16 | each cookie with the name overwrites the value, so the loop ends with the last one |
| InvoicesPage.GetCookie | backend/static/js/invoices.js:8-19 | the loop returns the decoded value of the last cookie with the name |
| InvoicesPage.EmptySearchShowsAll | backend/static/js/invoices.js:276-279 | an empty search shows every row |
| InvoicesPage.SearchIgnoresCase | backend/static/js/invoices.js:277 | a row text and a typed input that differ only in case from another pair give the same match |
| InvoicesPage.InvoiceTable.constructor | backend/static/js/invoices.js:271-273 | each row's lower-cased text is captured at load |
| InvoicesPage.InvoiceTable.Search | backend/static/js/invoices.js:276-279 | each row is displayed iff its captured text contains the lower-cased term |
| InvoicesPage.InvoiceTable.EditRow | backend/static/js/invoices.js:184-191 | an edit changes the row's text but not its captured search text |
| InvoicesPage.EditedBadge | backend/static/js/invoices.js:189-190 | the badge is `success` iff the status is `paid`, else `danger`; the text between the class prefix and the closing tag is exactly the status |
| ClientPortal.ReplaceAllAppend | backend/static/js/client.js:108-113 | a global replace distributes over concatenation |
| ClientPortal.EscapeHtml | backend/static/js/client.js:107-114 | the five chained global replaces, `&` first; stated by `EscapeIsPerChar`, `EscapedIsSafe` and `UnescapeEscape` |
| ClientPortal.EscapePerChar | backend/static/js/client.js:107-114 | the escaped text contains none of `<`, `>`, `"` or `'` |
| ClientPortal.EscapeIsPerChar | backend/static/js/client.js:107-114 | the five chained replaces equal escaping each character on its own |
| ClientPortal.EscapeOne | backend/static/js/client.js:107-114 | a single character escapes to its entity, or to itself |
| ClientPortal.EscapedIsSafe | backend/static/js/client.js:107-114 | `escapeHtml` output contains none of `<`, `>`, `"` or `'` |
| ClientPortal.PlainUnchanged | backend/static/js/client.js:107-114 | text without special characters is unchanged |
| ClientPortal.Reference | frontend/JS/client.js:119-126 | a recognised reference is a prefix of the text and is the entity of the character it stands for |
| ClientPortal.ReferenceFront | frontend/JS/client.js:119-126 | the entity of a special character is recognised as that character; a plain character is not a reference |
| ClientPortal.UnescapeFront | frontend/JS/client.js:119-126 | decoding reads one escaped character back and continues with the rest |
| ClientPortal.UnescapeEscape | frontend/JS/client.js:119-126 | escaping loses nothing: decoding the five entities gives the input back |
| ClientPortal.Lines | backend/static/js/client.js:131 | the meta lines are trimmed and non-empty |
| ClientPortal.NonBlankAppend | backend/static/js/client.js:131 | filtering the lines of two pieces is filtering each piece, in order |
| ClientPortal.NonBlankSingle | backend/static/js/client.js:131 | a blank line is dropped; any other line is kept trimmed |
| ClientPortal.NonBlankKeeps | backend/static/js/client.js:131 | every line that is not all white space appears, trimmed, in the result |
| ClientPortal.NonBlankOnly | backend/static/js/client.js:131 | every line of the result is the trim of a non-blank input line |
| ClientPortal.IdAfterFirstColon | backend/static/js/client.js:134 | the id is the trimmed text after the first colon, later colons kept |
| ClientPortal.IdWithoutColon | backend/static/js/client.js:134 | a `ticket id` line without a colon gives an empty id |
| ClientPortal.IdOf | backend/static/js/client.js:133 | `p.split(':').slice(1).join(':').trim()`; stated by `IdAfterFirstColon` and `IdWithoutColon` |
| ClientPortal.MetaId | backend/static/js/client.js:131-138 | the id the `forEach` leaves: the last id line's id, or empty; stated by `ParseMeta` and `LastIdWins` |
| ClientPortal.MetaDate | backend/static/js/client.js:131-138 | the date the `forEach` leaves: the last non-id line with four digits, or empty; stated by `ParseMeta` and `LastDateWins` |
| ClientPortal.ParseMeta | backend/static/js/client.js:132-138 | the loop ends with the id of the last id line and the last line holding four digits |
| ClientPortal.LastIdWins | frontend/JS/client.js:154-160 | the last `ticket id` line gives the id |
| ClientPortal.LastDateWins | frontend/JS/client.js:154-160 | the last non-id line holding four digits gives the date |
| ClientPortal.TicketModal | backend/static/js/client.js:116-150 | every field of the modal is HTML-safe, and with a meta block the id and date are the escaped `MetaId` and `MetaDate` of its lines |
| ClientPortal.MissingFieldsShowNA | backend/static/js/client.js:144-146 | without meta lines the id and date show `N/A`; without a badge, the status does |
| ClientPortal.OnTrackClick | backend/static/js/client.js:10-17 | an error iff the input is missing or blank; otherwise the trimmed, non-empty number is requested |
| ClientPortal.BlankInputShowsError | backend/static/js/client.js:10-17 | the error is shown exactly when the input is missing or all white space |
| ClientPortal.Defaulted | backend/static/js/client.js:44-50 | each missing or empty field of the answer gets its default, and the tracking defaults to the typed number; every field that is present and truthy is kept |
| ClientPortal.DefaultedStable | backend/static/js/client.js:44-50 | the defaults are a fixed point |
| ClientPortal.OnFrontendTrackClick | frontend/JS/client.js:10-40 | an error iff the trimmed input is empty; otherwise the empty placeholder card |
| ClientPortal.FrontendBlankRejected | frontend/JS/client.js:19-23 | the input is rejected exactly when it is all white space |

## Left out

- Persistence, transactions and `select_for_update` locking are not modelled. The store is the sequence of existing keys, and concurrent saves are not modelled.
- Rendering of the DOM, modal animation, notifications, `fetch` and the network are not modelled. Rows are their texts; `shown` is `style.display`.
- Lower-casing is ASCII only, and digits are the ASCII digits. Python's `\d` and JavaScript's `toLowerCase` on other Unicode characters are not modelled.
- Timestamps are integers. `timezone.now()`, `strftime` and `isoformat` printing are not modelled; the printed stamp is a parameter.
- `make_password` and `decodeURIComponent` are function parameters. The hashing itself, and the exception `decodeURIComponent` throws on a malformed escape, are not modelled.
- Tracking.Latest: two records created at the same instant are not ordered as the database would order them. The model picks one that no other record is newer than.
- ShipmentBoard.Board: the page's `selectedRow` element is folded into `currentId`. Rendering rows and the view modal's image are not modelled.
- ShipmentBoard.BadgeClass: property names inherited by JavaScript objects (such as `constructor`) are not modelled as keys of the badge tables.
- IncidentsPage.Lookup: property names inherited by JavaScript objects (such as `constructor`) are not modelled as keys of the badge tables.
- DriversPage.GetCookie: the contract says nothing when two occurrences of `; name=` overlap. `CookieRepeated` covers only occurrences at least one marker apart.
- Tracking.ClientTrack: no ownership check exists in the views, so none is modelled. Any caller can track any number.
- Agents.SaveAsWritten: `update_fields` absent and `update_fields=None` are both `None`. In the source, an explicit `update_fields=None` makes `'mot_de_passe' in update_fields` raise `TypeError` (backend/database/models.py:560). The model treats it as absent.
- Agents.Save: the same merging of an explicit `update_fields=None` with an absent one.
- The database is assumed to compare strings by code point (a binary collation). `Identifiers.LexLess` and `Identifiers.Greatest` order keys as `order_by('-id')` does only under such a collation, and exact tracking-number matching in `Tracking.FindPackage` assumes it too. Under a case-insensitive collation, such as MySQL's default, a lookup may return a row whose tracking number differs in case from the one asked for.
- Tracking.ApiTrack: backend/database/migrations/0014_migrate_expedition_to_shipment.py:51-53 deletes the `Expedition` model. backend/api/views.py:99 still queries it, and the model assumes the expedition table still exists. Against the migrated schema, that query would fail rather than return the client's latest expedition.
- Agents: only the fields `save()` reads are modelled. The other agent methods (password checks, names) are not part of this model.
- The other pages' create, edit and delete calls to the server (`saveClientChanges`, `confirmDelete` on the clients, drivers, incidents and invoices pages) are not modelled. They post to the server and only re-render.

## Findings

| source | as written | input that shows it | evidently intended | confidence | as-written member | corrected member |
|---|---|---|---|---|---|---|
| backend/client/views.py:66 | reads `latest_shipment_for_client.statut`, but the `Shipment` model (backend/database/models.py:903-950) declares no `statut` field | any package whose client owns at least one shipment, e.g. a package with its own shipment | read the `statut` column that migration 0014 adds to shipments | not executed | Tracking.AsWrittenFailsOnAnyShipment | Tracking.ClientTrack |
| backend/database/models.py:560 | hashes when `self.pk is None`, but the id block above has already set the primary key `agent_id` | `Agent(mot_de_passe="secret").save()` as backend/agent/views.py:41-50 does it | hash whenever a new agent is inserted | not executed | Agents.NewAgentStoredInClear | Agents.NewAgentStoredHashed |
