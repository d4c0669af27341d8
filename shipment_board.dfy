/**
 * The staff shipments page (backend/static/js/DASHshipments.js): an in-memory
 * table `shipmentsData` keyed by `SHP` + a zero-padded counter, with add, edit
 * and delete, the current selection, the client-name filter and the status badge.
 */
module ShipmentBoard {
  import opened Wrappers
  import opened Text
  import Identifiers
  import TableFilter

  /** One entry of `shipmentsData`; `image` is `null` for every entry the page creates. */
  datatype Shipment = Shipment(
    id: string, client: string, origin: string, destination: string,
    status: string, driver: string, date: string, time: string, image: Option<string>)

  /** The values of the add or edit form. */
  datatype Form = Form(
    client: string, origin: string, destination: string,
    status: string, driver: string, date: string, time: string)

  /** `'SHP' + String(n).padStart(3, '0')`. */
  function KeyFor(n: nat): string {
    "SHP" + Identifiers.Pad(n, 3)
  }

  /** Different counters give different keys, also past 999. */
  lemma KeyForInjective(m: nat, n: nat)
    ensures KeyFor(m) == KeyFor(n) <==> m == n
  {
    if KeyFor(m) == KeyFor(n) {
      assert Identifiers.Pad(m, 3) == KeyFor(m)[3..];
      assert Identifiers.Pad(n, 3) == KeyFor(n)[3..];
      Identifiers.PadValue(m, 3);
      Identifiers.PadValue(n, 3);
    }
  }

  /** The keys of the seven sample shipments are those of counters 1 to 7. */
  lemma SeedKeys()
    ensures KeyFor(1) == "SHP001" && KeyFor(2) == "SHP002" && KeyFor(3) == "SHP003"
    ensures KeyFor(4) == "SHP004" && KeyFor(5) == "SHP005" && KeyFor(6) == "SHP006"
    ensures KeyFor(7) == "SHP007"
  {
    SmallKey(1); SmallKey(2); SmallKey(3); SmallKey(4);
    SmallKey(5); SmallKey(6); SmallKey(7);
  }

  /** A one-digit counter is written after two zeros. */
  lemma SmallKey(d: nat)
    requires d < 10
    ensures KeyFor(d) == "SHP00" + [DigitChar(d)]
  {
    assert Identifiers.Pad(0, 1) == "0";
    assert Identifiers.Pad(0, 2) == "00";
    assert Identifiers.Pad(d, 3) == Identifiers.Pad(0, 2) + [DigitChar(d)];
  }

  /** The guard of `addShipment`: every field but the status must be non-empty. */
  predicate Incomplete(f: Form) {
    f.client == "" || f.origin == "" || f.destination == "" || f.driver == "" || f.date == "" || f.time == ""
  }

  function FromForm(id: string, f: Form): Shipment {
    Shipment(id, f.client, f.origin, f.destination, f.status, f.driver, f.date, f.time, None)
  }

  /** The seven editable fields take the form's values; the key and the image stay. */
  function Edited(s: Shipment, f: Form): (t: Shipment)
    ensures t.id == s.id && t.image == s.image
    ensures t == FromForm(s.id, f).(image := s.image)
  {
    s.(client := f.client, origin := f.origin, destination := f.destination,
       status := f.status, driver := f.driver, date := f.date, time := f.time)
  }

  /** JavaScript truthiness of the selection. */
  predicate Selected(current: Option<string>) {
    current.Some? && current.value != ""
  }

  /** The object literal the page starts with: each sample written under its key. */
  function Seeds(): map<string, Shipment> {
    map[
      "SHP001" := Shipment("SHP001", "Acme Corp", "New York, NY", "Los Angeles, CA", "Delivered", "John Smith", "2025-12-20", "14:30", None),
      "SHP002" := Shipment("SHP002", "Global Tech", "Chicago, IL", "Houston, TX", "In Transit", "Sarah Johnson", "2025-12-19", "09:15", None),
      "SHP003" := Shipment("SHP003", "Swift Logistics", "Miami, FL", "Seattle, WA", "Pending", "Mike Davis", "2025-12-18", "16:45", None),
      "SHP004" := Shipment("SHP004", "Prime Retail", "Boston, MA", "Denver, CO", "Failed", "Tom Wilson", "2025-12-17", "11:20", None),
      "SHP005" := Shipment("SHP005", "Metro Industries", "Phoenix, AZ", "Atlanta, GA", "Delivered", "Emma Brown", "2025-12-16", "13:10", None),
      "SHP006" := Shipment("SHP006", "Ocean Freight Co", "San Diego, CA", "Portland, OR", "In Transit", "James Taylor", "2025-12-15", "08:00", None),
      "SHP007" := Shipment("SHP007", "United Supplies", "Dallas, TX", "Philadelphia, PA", "Delivered", "Lisa Anderson", "2025-12-14", "15:55", None)
    ]
  }

  /** The seed keys are exactly the keys of counters 1 to 7. */
  lemma SeedKeySet()
    ensures Seeds().Keys == {KeyFor(1), KeyFor(2), KeyFor(3), KeyFor(4), KeyFor(5), KeyFor(6), KeyFor(7)}
  {
    SeedKeys();
  }

  /** Every sample is stored under its own id, without an image. */
  lemma SeedsSelfKeyed()
    ensures forall k :: k in Seeds() ==> Seeds()[k].id == k && Seeds()[k].image.None?
  {
  }

  /** A counter from 8 on gives none of the seed keys. */
  lemma SeedsFree(n: nat)
    requires n >= 8
    ensures KeyFor(n) !in Seeds()
  {
    SeedKeySet();
    var seedKeys := {KeyFor(1), KeyFor(2), KeyFor(3), KeyFor(4), KeyFor(5), KeyFor(6), KeyFor(7)};
    forall i | 1 <= i <= 7 ensures KeyFor(n) != KeyFor(i) {
      KeyForInjective(n, i);
    }
    assert KeyFor(n) !in seedKeys;
  }

  class Board {
    var data: map<string, Shipment>
    var counter: nat
    var currentId: Option<string>

    /** Every entry is stored under its own id, and no key from the counter on is taken. */
    ghost predicate Valid()
      reads this
    {
      (forall k :: k in data ==> data[k].id == k)
      && (forall n: nat :: n >= counter ==> KeyFor(n) !in data)
    }

    /** The page as loaded: SHP001 to SHP007, counter 8, nothing selected. */
    constructor ()
      ensures Valid() && data == Seeds() && counter == 8 && currentId.None?
    {
      data := Seeds();
      counter := 8;
      currentId := None;
      new;
      SeedsSelfKeyed();
      forall n: nat | n >= 8 ensures KeyFor(n) !in data {
        SeedsFree(n);
      }
    }

    /** `selectRow`, `openEditModal`, `openDeleteModal`, `openViewModal`: the row's id becomes current. */
    method Select(id: string)
      modifies this
      ensures currentId == Some(id) && data == old(data) && counter == old(counter)
    {
      currentId := Some(id);
    }

    /**
     * `addShipment`: an incomplete form changes nothing; otherwise the entry is
     * stored under the counter's key, which was free, and the counter moves on by one.
     */
    method AddShipment(f: Form) returns (newId: Option<string>)
      requires Valid()
      modifies this
      ensures Valid() && currentId == old(currentId)
      ensures Incomplete(f) ==> newId.None? && data == old(data) && counter == old(counter)
      ensures !Incomplete(f) ==>
        newId == Some(KeyFor(old(counter))) && KeyFor(old(counter)) !in old(data)
        && counter == old(counter) + 1
        && data == old(data)[KeyFor(old(counter)) := FromForm(KeyFor(old(counter)), f)]
    {
      if Incomplete(f) {
        return None;
      }
      var id := KeyFor(counter);
      counter := counter + 1;
      data := data[id := FromForm(id, f)];
      newId := Some(id);
      forall n: nat | n >= counter ensures KeyFor(n) !in data {
        KeyForInjective(n, counter - 1);
      }
    }

    /** `saveShipmentChanges`: an unknown id changes nothing; a known entry takes the form's seven fields. */
    method SaveShipmentChanges(shipmentId: string, f: Form)
      requires Valid()
      modifies this
      ensures Valid() && counter == old(counter) && currentId == old(currentId)
      ensures shipmentId !in old(data) ==> data == old(data)
      ensures shipmentId in old(data) ==> data == old(data)[shipmentId := Edited(old(data)[shipmentId], f)]
    {
      if shipmentId in data {
        data := data[shipmentId := Edited(data[shipmentId], f)];
      }
    }

    /** `confirmDelete`: removes the selected key only and clears the selection; without a selection, nothing. */
    method ConfirmDelete()
      requires Valid()
      modifies this
      ensures Valid() && counter == old(counter)
      ensures Selected(old(currentId)) ==> data == old(data) - {old(currentId).value} && currentId.None?
      ensures !Selected(old(currentId)) ==> data == old(data) && currentId == old(currentId)
    {
      if Selected(currentId) {
        data := data - {currentId.value};
        currentId := None;
      }
    }
  }

  /** A row with a client cell is shown iff that cell contains the term, both lower-cased. */
  function ClientDecision(row: TableFilter.Row, searchTerm: string): (d: Option<bool>)
    ensures d.None? <==> |row.cells| < 2
  {
    if |row.cells| >= 2 then Some(Contains(Lower(row.cells[1]), Lower(searchTerm))) else None
  }

  /** `filterShipments(searchTerm)` over the table's rows. */
  method FilterShipments(rows: seq<TableFilter.Row>, shown: array<bool>, searchTerm: string)
    requires shown.Length == |rows|
    modifies shown
    ensures forall i :: 0 <= i < |rows| ==>
      shown[i] == TableFilter.Decided(ClientDecision(rows[i], searchTerm), old(shown[i]))
  {
    TableFilter.Apply(rows, shown, (r: TableFilter.Row) => ClientDecision(r, searchTerm));
  }

  /**
   * The filter ignores case and shows every row with a client cell for an empty
   * term; rows without a client cell are never touched.
   */
  lemma ClientFilterSpec(row: TableFilter.Row, searchTerm: string)
    ensures ClientDecision(row, searchTerm) == ClientDecision(row, Lower(searchTerm))
    ensures |row.cells| >= 2 && searchTerm == "" ==> ClientDecision(row, searchTerm) == Some(true)
    ensures |row.cells| >= 2 && |searchTerm| > |row.cells[1]| ==> ClientDecision(row, searchTerm) == Some(false)
  {
    LowerIdempotent(searchTerm);
    if |row.cells| >= 2 && searchTerm == "" {
      ContainsEmpty(Lower(row.cells[1]));
    }
  }

  /** `badgeClasses[status] || 'info'`. */
  function BadgeClass(status: string): (c: string)
    ensures c in {"success", "info", "warning", "danger"}
    ensures c == "info" <==> status !in {"Delivered", "Pending", "Failed"}
  {
    if status == "Delivered" then "success"
    else if status == "In Transit" then "info"
    else if status == "Pending" then "warning"
    else if status == "Failed" then "danger"
    else "info"
  }

  /** The four statuses get four different classes. */
  lemma BadgeDistinct()
    ensures BadgeClass("Delivered") == "success" && BadgeClass("In Transit") == "info"
    ensures BadgeClass("Pending") == "warning" && BadgeClass("Failed") == "danger"
  {
  }
}
