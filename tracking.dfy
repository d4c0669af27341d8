/**
 * The public tracking endpoint: `track` in backend/client/views.py and its older
 * twin in backend/api/views.py. Both read a tracking number from the query, find
 * the package, its shipment and the client's most recent record, and answer with
 * a status, a progress percentage and a short event list. Timestamps are abstract
 * integers (their `isoformat()` printing is not modelled).
 */
module Tracking {
  import opened Wrappers

  datatype ClientRec = ClientRec(id: string, email: string)
  datatype PackageRec = PackageRec(id: string, trackingNumber: string, client: ClientRec, created: Option<int>)
  /** A shipment row, including the `statut` column the database schema has. */
  datatype ShipmentRec = ShipmentRec(id: string, packageId: string, shipmentDate: Option<int>, created: int, statut: string)
  datatype ExpeditionRec = ExpeditionRec(id: string, clientId: string, created: int, statut: string)
  datatype Db = Db(packages: seq<PackageRec>, shipments: seq<ShipmentRec>, expeditions: seq<ExpeditionRec>)

  /** The query string: `None` for an absent parameter. */
  datatype Query = Query(number: Option<string>, tracking: Option<string>)

  datatype Event = Event(description: string, date: int)

  datatype Response =
    | Failure(httpStatus: nat, error: string)
    | Tracked(tracking: string, status: string, estimatedDelivery: Option<int>, progress: nat,
              events: seq<Event>, clientId: string, clientEmail: string)

  const ShipmentLabel := "Latest shipment status: "
  const ExpeditionLabel := "Latest expedition status: "

  /** Python truthiness of an optional string. */
  predicate Truthy(v: Option<string>) {
    v.Some? && v.value != ""
  }

  /** `request.GET.get('number') or request.GET.get('tracking')`, kept only when truthy. */
  function TrackingParam(q: Query): (r: Option<string>)
    ensures r.Some? <==> Truthy(q.number) || Truthy(q.tracking)
    ensures Truthy(q.number) ==> r == q.number
    ensures !Truthy(q.number) ==> r.None? || r == q.tracking
  {
    if Truthy(q.number) then q.number else if Truthy(q.tracking) then q.tracking else None
  }

  /** `Package.objects.get(tracking_number=number)`. */
  function FindPackage(packages: seq<PackageRec>, number: string): (r: Option<PackageRec>)
    ensures r.Some? ==> r.value in packages && r.value.trackingNumber == number
    ensures r.None? <==> forall p :: p in packages ==> p.trackingNumber != number
  {
    if packages == [] then None
    else if packages[0].trackingNumber == number then Some(packages[0])
    else FindPackage(packages[1..], number)
  }

  /** `pkg.shipment`, the one-to-one reverse relation. */
  function ShipmentOf(shipments: seq<ShipmentRec>, packageId: string): (r: Option<ShipmentRec>)
    ensures r.Some? ==> r.value in shipments && r.value.packageId == packageId
    ensures r.None? <==> forall s :: s in shipments ==> s.packageId != packageId
  {
    if shipments == [] then None
    else if shipments[0].packageId == packageId then Some(shipments[0])
    else ShipmentOf(shipments[1..], packageId)
  }

  /** The shipment belongs to a package of the client (`package__client=...`). */
  predicate OwnedBy(packages: seq<PackageRec>, s: ShipmentRec, clientId: string) {
    exists p :: p in packages && p.id == s.packageId && p.client.id == clientId
  }

  function ShipmentsOfClient(packages: seq<PackageRec>, shipments: seq<ShipmentRec>, clientId: string): (r: seq<ShipmentRec>)
    ensures forall s :: s in r <==> s in shipments && OwnedBy(packages, s, clientId)
  {
    if shipments == [] then []
    else
      (if OwnedBy(packages, shipments[0], clientId) then [shipments[0]] else [])
      + ShipmentsOfClient(packages, shipments[1..], clientId)
  }

  function ExpeditionsOfClient(expeditions: seq<ExpeditionRec>, clientId: string): (r: seq<ExpeditionRec>)
    ensures forall e :: e in r <==> e in expeditions && e.clientId == clientId
  {
    if expeditions == [] then []
    else
      (if expeditions[0].clientId == clientId then [expeditions[0]] else [])
      + ExpeditionsOfClient(expeditions[1..], clientId)
  }

  /** `order_by('-date_creation').first()`: a record with the greatest creation time. */
  function Latest<T>(xs: seq<T>, created: T -> int): (r: Option<T>)
    ensures r.None? <==> xs == []
    ensures r.Some? ==> r.value in xs && forall x :: x in xs ==> created(x) <= created(r.value)
  {
    if xs == [] then None
    else
      match Latest(xs[1..], created)
      case None => Some(xs[0])
      case Some(m) => if created(m) > created(xs[0]) then Some(m) else Some(xs[0])
  }

  /**
   * The status table: DELIVERED on the client's latest record wins, then the
   * package's own shipment, then the package alone.
   */
  function StatusOf(latestStatut: Option<string>, hasShipment: bool): (r: (string, nat))
    ensures r.0 == "Delivered" <==> latestStatut == Some("DELIVERED")
    ensures r.0 == "In Transit" <==> latestStatut != Some("DELIVERED") && hasShipment
    ensures r.0 == "Created" <==> latestStatut != Some("DELIVERED") && !hasShipment
  {
    if latestStatut == Some("DELIVERED") then ("Delivered", 100)
    else if hasShipment then ("In Transit", 60)
    else ("Created", 5)
  }

  /** Progress is one of three steps, and it grows from Created to In Transit to Delivered. */
  lemma ProgressSteps(latestStatut: Option<string>, hasShipment: bool)
    ensures var (status, progress) := StatusOf(latestStatut, hasShipment);
      progress in {5, 60, 100} && 0 <= progress <= 100
      && (status == "Created" ==> progress == 5)
      && (status == "In Transit" ==> progress == 60)
      && (status == "Delivered" ==> progress == 100)
  {
  }

  /** The event list, appended in the views' fixed order. */
  function Events(pkg: PackageRec, shipment: Option<ShipmentRec>, latest: Option<(string, int)>, heading: string): (evs: seq<Event>)
    ensures |evs| <= 3
  {
    PackageEvent(pkg) + ShipmentEvent(shipment) + LatestEvent(latest, heading)
  }

  function PackageEvent(pkg: PackageRec): seq<Event> {
    if pkg.created.Some? then [Event("Package created", pkg.created.value)] else []
  }

  function ShipmentEvent(shipment: Option<ShipmentRec>): seq<Event> {
    if shipment.Some? then [Event("Shipment record created", shipment.value.shipmentDate.GetOr(shipment.value.created))] else []
  }

  function LatestEvent(latest: Option<(string, int)>, heading: string): seq<Event> {
    if latest.Some? then [Event(heading + latest.value.0, latest.value.1)] else []
  }

  /** The position an event takes in the fixed order. */
  function Rank(e: Event): nat {
    if e.description == "Package created" then 0
    else if e.description == "Shipment record created" then 1
    else 2
  }

  predicate HasRank(evs: seq<Event>, k: nat) {
    exists i :: 0 <= i < |evs| && Rank(evs[i]) == k
  }

  /** Which part of `a + b + c` the index `i` falls in: 0, 1 or 2. */
  function Part(la: nat, lb: nat, i: nat): nat {
    if i < la then 0 else if i < la + lb then 1 else 2
  }

  /** An event of the concatenation is the event of the part it falls in. */
  lemma ConcatAt(a: seq<Event>, b: seq<Event>, c: seq<Event>, i: nat)
    requires i < |a + b + c|
    ensures Part(|a|, |b|, i) == 0 ==> (a + b + c)[i] == a[i]
    ensures Part(|a|, |b|, i) == 1 ==> (a + b + c)[i] == b[i - |a|]
    ensures Part(|a|, |b|, i) == 2 ==> (a + b + c)[i] == c[i - |a| - |b|]
  {
  }

  /** Predicate on the parts: at most one event each, of ranks 0, 1 and 2. */
  predicate RankedParts(a: seq<Event>, b: seq<Event>, c: seq<Event>) {
    |a| <= 1 && |b| <= 1 && |c| <= 1
    && (forall i :: 0 <= i < |a| ==> Rank(a[i]) == 0)
    && (forall i :: 0 <= i < |b| ==> Rank(b[i]) == 1)
    && (forall i :: 0 <= i < |c| ==> Rank(c[i]) == 2)
  }

  lemma RankAt(a: seq<Event>, b: seq<Event>, c: seq<Event>, i: nat)
    requires RankedParts(a, b, c) && i < |a + b + c|
    ensures Rank((a + b + c)[i]) == Part(|a|, |b|, i)
  {
    ConcatAt(a, b, c, i);
  }

  /** At most one event of each rank, appended by rank: strictly ordered, and each rank present iff its part is. */
  lemma ConcatRanks(a: seq<Event>, b: seq<Event>, c: seq<Event>)
    requires |a| <= 1 && |b| <= 1 && |c| <= 1
    requires forall i :: 0 <= i < |a| ==> Rank(a[i]) == 0
    requires forall i :: 0 <= i < |b| ==> Rank(b[i]) == 1
    requires forall i :: 0 <= i < |c| ==> Rank(c[i]) == 2
    ensures var evs := a + b + c;
      (forall i, j :: 0 <= i < j < |evs| ==> Rank(evs[i]) < Rank(evs[j]))
      && (HasRank(evs, 0) <==> a != [])
      && (HasRank(evs, 1) <==> b != [])
      && (HasRank(evs, 2) <==> c != [])
      && (forall i :: 0 <= i < |evs| && Rank(evs[i]) == 1 ==> evs[i] == b[0])
  {
    ConcatOrdered(a, b, c);
    ConcatPresence(a, b, c);
    ConcatParts(a, b, c);
  }

  lemma ConcatOrdered(a: seq<Event>, b: seq<Event>, c: seq<Event>)
    requires RankedParts(a, b, c)
    ensures forall i, j :: 0 <= i < j < |a + b + c| ==> Rank((a + b + c)[i]) < Rank((a + b + c)[j])
  {
    forall i, j | 0 <= i < j < |a + b + c| ensures Rank((a + b + c)[i]) < Rank((a + b + c)[j]) {
      RankAt(a, b, c, i);
      RankAt(a, b, c, j);
    }
  }

  lemma ConcatPresence(a: seq<Event>, b: seq<Event>, c: seq<Event>)
    requires RankedParts(a, b, c)
    ensures HasRank(a + b + c, 0) <==> a != []
    ensures HasRank(a + b + c, 1) <==> b != []
    ensures HasRank(a + b + c, 2) <==> c != []
  {
    var evs := a + b + c;
    forall i | 0 <= i < |evs| ensures Rank(evs[i]) == Part(|a|, |b|, i) {
      RankAt(a, b, c, i);
    }
    if a != [] {
      assert Rank(evs[0]) == 0;
    }
    if b != [] {
      assert Rank(evs[|a|]) == 1;
    }
    if c != [] {
      assert Rank(evs[|a| + |b|]) == 2;
    }
  }

  /** An event of the concatenation is the single event of the part its rank names. */
  lemma ConcatParts(a: seq<Event>, b: seq<Event>, c: seq<Event>)
    requires RankedParts(a, b, c)
    ensures forall i :: 0 <= i < |a + b + c| && Rank((a + b + c)[i]) == 0 ==> (a + b + c)[i] == a[0]
    ensures forall i :: 0 <= i < |a + b + c| && Rank((a + b + c)[i]) == 1 ==> (a + b + c)[i] == b[0]
    ensures forall i :: 0 <= i < |a + b + c| && Rank((a + b + c)[i]) == 2 ==> (a + b + c)[i] == c[0]
  {
    forall i | 0 <= i < |a + b + c| ensures Rank((a + b + c)[i]) == Part(|a|, |b|, i) {
      RankAt(a, b, c, i);
      ConcatAt(a, b, c, i);
    }
  }

  /**
   * Each event is present exactly when its source exists, they come in the order
   * package, shipment, latest record, and the shipment event is dated by the
   * shipment date when set, else by the record's creation.
   */
  lemma EventsSpec(pkg: PackageRec, shipment: Option<ShipmentRec>, latest: Option<(string, int)>, heading: string)
    requires heading == ShipmentLabel || heading == ExpeditionLabel
    ensures var evs := Events(pkg, shipment, latest, heading);
      (forall i, j :: 0 <= i < j < |evs| ==> Rank(evs[i]) < Rank(evs[j]))
      && (HasRank(evs, 0) <==> pkg.created.Some?)
      && (HasRank(evs, 1) <==> shipment.Some?)
      && (HasRank(evs, 2) <==> latest.Some?)
      && (forall i :: 0 <= i < |evs| && Rank(evs[i]) == 1 ==>
            evs[i].date == shipment.value.shipmentDate.GetOr(shipment.value.created))
  {
    var c := LatestEvent(latest, heading);
    if latest.Some? {
      var d := heading + latest.value.0;
      assert d[0] == 'L';
      assert Rank(c[0]) == 2;
    }
    ConcatRanks(PackageEvent(pkg), ShipmentEvent(shipment), c);
  }

  /**
   * What each event says: the package event carries the package's creation time,
   * and the last event the heading followed by the latest record's status, dated
   * by that record's creation.
   */
  lemma EventsContent(pkg: PackageRec, shipment: Option<ShipmentRec>, latest: Option<(string, int)>, heading: string)
    requires heading == ShipmentLabel || heading == ExpeditionLabel
    ensures var evs := Events(pkg, shipment, latest, heading);
      (forall i :: 0 <= i < |evs| && Rank(evs[i]) == 0 ==>
         pkg.created.Some? && evs[i] == Event("Package created", pkg.created.value))
      && (forall i :: 0 <= i < |evs| && Rank(evs[i]) == 2 ==>
         latest.Some? && evs[i] == Event(heading + latest.value.0, latest.value.1))
  {
    var a, b, c := PackageEvent(pkg), ShipmentEvent(shipment), LatestEvent(latest, heading);
    if latest.Some? {
      var d := heading + latest.value.0;
      assert d[0] == 'L';
      assert Rank(c[0]) == 2;
    }
    ConcatParts(a, b, c);
    ConcatPresence(a, b, c);
  }

  /** The successful response both views build. */
  function Assemble(pkg: PackageRec, shipment: Option<ShipmentRec>, latest: Option<(string, int)>, heading: string): (r: Response)
    ensures r.Tracked?
    ensures r.tracking == pkg.trackingNumber && r.clientId == pkg.client.id && r.clientEmail == pkg.client.email
    ensures r.progress in {5, 60, 100}
    ensures r.estimatedDelivery == if shipment.Some? then shipment.value.shipmentDate else None
  {
    var (status, progress) := StatusOf(if latest.Some? then Some(latest.value.0) else None, shipment.Some?);
    Tracked(
      pkg.trackingNumber, status,
      if shipment.Some? && shipment.value.shipmentDate.Some? then shipment.value.shipmentDate else None,
      progress, Events(pkg, shipment, latest, heading), pkg.client.id, pkg.client.email)
  }

  function StatusAndDate(s: Option<ShipmentRec>): Option<(string, int)> {
    if s.Some? then Some((s.value.statut, s.value.created)) else None
  }

  function ExpeditionStatusAndDate(e: Option<ExpeditionRec>): Option<(string, int)> {
    if e.Some? then Some((e.value.statut, e.value.created)) else None
  }

  /** The client's most recent shipment over all of their packages. */
  function LatestShipmentForClient(db: Db, clientId: string): (r: Option<ShipmentRec>)
    ensures r.None? <==> ShipmentsOfClient(db.packages, db.shipments, clientId) == []
    ensures r.Some? ==> r.value in ShipmentsOfClient(db.packages, db.shipments, clientId)
    ensures r.Some? ==> forall s :: s in ShipmentsOfClient(db.packages, db.shipments, clientId) ==> s.created <= r.value.created
  {
    Latest(ShipmentsOfClient(db.packages, db.shipments, clientId), (s: ShipmentRec) => s.created)
  }

  /** The client's most recent expedition. */
  function LatestExpedition(db: Db, clientId: string): (r: Option<ExpeditionRec>)
    ensures r.None? <==> ExpeditionsOfClient(db.expeditions, clientId) == []
    ensures r.Some? ==> r.value in ExpeditionsOfClient(db.expeditions, clientId)
    ensures r.Some? ==> forall e :: e in ExpeditionsOfClient(db.expeditions, clientId) ==> e.created <= r.value.created
  {
    Latest(ExpeditionsOfClient(db.expeditions, clientId), (e: ExpeditionRec) => e.created)
  }

  /**
   * `track` of backend/client/views.py, reading the `statut` of the client's
   * latest shipment: 400 without a number, 404 for an unknown one, otherwise the
   * package's own tracking number with a progress step.
   */
  function ClientTrack(db: Db, q: Query): (r: Response)
    ensures TrackingParam(q).None? <==> r == Failure(400, "missing_number")
    ensures r == Failure(404, "not_found") <==>
      TrackingParam(q).Some? && FindPackage(db.packages, TrackingParam(q).value).None?
    ensures r.Failure? || (r.Tracked? && TrackingParam(q) == Some(r.tracking) && r.progress in {5, 60, 100})
  {
    match TrackingParam(q)
    case None => Failure(400, "missing_number")
    case Some(n) =>
      match FindPackage(db.packages, n)
      case None => Failure(404, "not_found")
      case Some(pkg) =>
        var shipment := ShipmentOf(db.shipments, pkg.id);
        Assemble(pkg, shipment, StatusAndDate(LatestShipmentForClient(db, pkg.client.id)), ShipmentLabel)
  }

  /**
   * `track` of backend/client/views.py as written: the `Shipment` model declares no
   * `statut` field, so reading it on the client's latest shipment raises
   * `AttributeError`, which the framework answers with a 500.
   */
  function ClientTrackAsWritten(db: Db, q: Query): Response {
    match TrackingParam(q)
    case None => Failure(400, "missing_number")
    case Some(n) =>
      match FindPackage(db.packages, n)
      case None => Failure(404, "not_found")
      case Some(pkg) =>
        var shipment := ShipmentOf(db.shipments, pkg.id);
        var latest := LatestShipmentForClient(db, pkg.client.id);
        if latest.Some? then Failure(500, "AttributeError")
        else Assemble(pkg, shipment, None, ShipmentLabel)
  }

  /**
   * The written view fails exactly when the package is found and its client has
   * any shipment at all, which includes every package that has its own shipment.
   */
  lemma AsWrittenFailsOnAnyShipment(db: Db, q: Query)
    ensures ClientTrackAsWritten(db, q) != ClientTrack(db, q) <==>
      TrackingParam(q).Some? && FindPackage(db.packages, TrackingParam(q).value).Some?
      && ShipmentsOfClient(db.packages, db.shipments, FindPackage(db.packages, TrackingParam(q).value).value.client.id) != []
    ensures TrackingParam(q).Some? && FindPackage(db.packages, TrackingParam(q).value).Some?
      && ShipmentOf(db.shipments, FindPackage(db.packages, TrackingParam(q).value).value.id).Some?
      ==> ClientTrackAsWritten(db, q) == Failure(500, "AttributeError")
  {
    if TrackingParam(q).Some? && FindPackage(db.packages, TrackingParam(q).value).Some? {
      var pkg := FindPackage(db.packages, TrackingParam(q).value).value;
      var s := ShipmentOf(db.shipments, pkg.id);
      if s.Some? {
        assert OwnedBy(db.packages, s.value, pkg.client.id);
        assert s.value in ShipmentsOfClient(db.packages, db.shipments, pkg.client.id);
      }
    }
  }

  /** `track` of backend/api/views.py, driven by the client's latest expedition. */
  function ApiTrack(db: Db, q: Query): (r: Response)
    ensures TrackingParam(q).None? <==> r == Failure(400, "missing_number")
    ensures r == Failure(404, "not_found") <==>
      TrackingParam(q).Some? && FindPackage(db.packages, TrackingParam(q).value).None?
    ensures r.Failure? || (r.Tracked? && TrackingParam(q) == Some(r.tracking) && r.progress in {5, 60, 100})
  {
    match TrackingParam(q)
    case None => Failure(400, "missing_number")
    case Some(n) =>
      match FindPackage(db.packages, n)
      case None => Failure(404, "not_found")
      case Some(pkg) =>
        var shipment := ShipmentOf(db.shipments, pkg.id);
        Assemble(pkg, shipment, ExpeditionStatusAndDate(LatestExpedition(db, pkg.client.id)), ExpeditionLabel)
  }

  /**
   * For a found package the client view says Delivered exactly when the client's
   * latest shipment (over all of their packages) is DELIVERED; otherwise In Transit
   * exactly when this package has a shipment. The estimated delivery is that
   * shipment's date, and the event list follows the fixed order.
   */
  lemma ClientTrackStatus(db: Db, q: Query)
    requires TrackingParam(q).Some? && FindPackage(db.packages, TrackingParam(q).value).Some?
    ensures var pkg := FindPackage(db.packages, TrackingParam(q).value).value;
      var latest := LatestShipmentForClient(db, pkg.client.id);
      var own := ShipmentOf(db.shipments, pkg.id);
      var r := ClientTrack(db, q);
      (r.status == "Delivered" <==> latest.Some? && latest.value.statut == "DELIVERED")
      && (r.status == "In Transit" <==> !(latest.Some? && latest.value.statut == "DELIVERED") && own.Some?)
      && r.estimatedDelivery == (if own.Some? then own.value.shipmentDate else None)
      && r.clientId == pkg.client.id && r.clientEmail == pkg.client.email
      && r.events == Events(pkg, own, StatusAndDate(latest), ShipmentLabel)
  {
  }

  /** The same reading for the older view, with the client's latest expedition. */
  lemma ApiTrackStatus(db: Db, q: Query)
    requires TrackingParam(q).Some? && FindPackage(db.packages, TrackingParam(q).value).Some?
    ensures var pkg := FindPackage(db.packages, TrackingParam(q).value).value;
      var latest := LatestExpedition(db, pkg.client.id);
      var own := ShipmentOf(db.shipments, pkg.id);
      var r := ApiTrack(db, q);
      (r.status == "Delivered" <==> latest.Some? && latest.value.statut == "DELIVERED")
      && (r.status == "In Transit" <==> !(latest.Some? && latest.value.statut == "DELIVERED") && own.Some?)
      && (r.estimatedDelivery.Some? <==> own.Some? && own.value.shipmentDate.Some?)
      && r.events == Events(pkg, own, ExpeditionStatusAndDate(latest), ExpeditionLabel)
  {
  }

  /**
   * "Delivered" follows the client, not the package: a package whose own shipment
   * is pending reads as Delivered once another package of the same client has a
   * newer delivered shipment.
   */
  lemma DeliveredFollowsClient()
    ensures var c := ClientRec("CL000001", "a@b.c");
      var p1 := PackageRec("PCG001", "T1", c, Some(1));
      var p2 := PackageRec("PCG002", "T2", c, Some(2));
      var s1 := ShipmentRec("SHP001", "PCG001", None, 10, "PENDING");
      var s2 := ShipmentRec("SHP002", "PCG002", None, 20, "DELIVERED");
      var db := Db([p1, p2], [s1, s2], []);
      ClientTrack(db, Query(Some("T1"), None)).status == "Delivered"
      && ClientTrackAsWritten(db, Query(Some("T1"), None)) == Failure(500, "AttributeError")
  {
    var c := ClientRec("CL000001", "a@b.c");
    var p1 := PackageRec("PCG001", "T1", c, Some(1));
    var p2 := PackageRec("PCG002", "T2", c, Some(2));
    var s1 := ShipmentRec("SHP001", "PCG001", None, 10, "PENDING");
    var s2 := ShipmentRec("SHP002", "PCG002", None, 20, "DELIVERED");
    var db := Db([p1, p2], [s1, s2], []);
    assert FindPackage(db.packages, "T1") == Some(p1);
    assert db.packages[0] == p1 && db.packages[1] == p2;
    assert OwnedBy(db.packages, s1, c.id) && OwnedBy(db.packages, s2, c.id);
    assert [s1, s2][1..] == [s2] && [s2][1..] == [];
    assert ShipmentsOfClient(db.packages, [s2], c.id) == [s2];
    var mine := ShipmentsOfClient(db.packages, db.shipments, c.id);
    assert mine == [s1, s2];
    assert mine[1..] == [s2];
    assert LatestShipmentForClient(db, c.id) == Some(s2);
  }
}
