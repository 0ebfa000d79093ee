/**
 * One poll cycle, as pollOnce in src/poller.js runs it: for every configured route, the
 * three providers' settled fetches become provider results, TomTom and Ola are compared
 * against Google's geometry, and one record is appended to the route's store
 * (appendRecord in src/storage.js).
 *
 * The settled fetches, the uuid and the clock reading of each route are inputs
 * (`RoutePoll`); the store is the `RecordStore` class, whose contents stand for the
 * JSON files the source reads and writes.
 */
module Poller {
  import opened Wrappers
  import Polyline
  import RouteMatcher

  /** The error of a rejected fetch without a message. */
  const UnknownError := "Unknown error"

  /** The provider every other provider's geometry is compared against. */
  const Reference := "google"

  /** An entry of routes.json. */
  datatype RouteConfig = RouteConfig(id: string, routeLabel: string, origin: Polyline.Point, destination: Polyline.Point)

  /** `{ comparedTo: 'google', ...divergence }`. */
  datatype Divergence = Divergence(comparedTo: string, avgDeviationMeters: int, maxDeviationMeters: int,
                                   isDifferentRoute: bool)

  /**
   * The object an adapter's fetch resolves with. Fields other than the three the poller
   * reads (durationNoTrafficSeconds, trafficDelaySeconds) are kept in `otherFields`.
   */
  datatype ProviderData = ProviderData(
    durationSeconds: int,
    distanceMeters: int,
    polyline: Option<string>,
    otherFields: map<string, int>,
    routeDivergence: Option<Divergence>)

  /** A provider's entry in a record: what the fetch resolved with, or `{ error }`. */
  datatype ProviderResult = Data(data: ProviderData) | Error(error: string)

  /** An outcome of Promise.allSettled; a rejection keeps `reason?.message` (None when missing). */
  datatype Settled = Fulfilled(value: ProviderData) | Rejected(message: Option<string>)

  /** What the poller takes from outside for one route: clock, uuid and the three outcomes. */
  datatype RoutePoll = RoutePoll(timestamp: int, id: string, google: Settled, tomtom: Settled, ola: Settled)

  /** One stored record: exactly one entry per provider. */
  datatype PollRecord = PollRecord(id: string, timestamp: int, routeId: string,
                                   google: ProviderResult, tomtom: ProviderResult, ola: ProviderResult)

  // ---------------------------------------------------------------------------
  // One route
  // ---------------------------------------------------------------------------

  /** The provider result of a settled fetch. */
  function ResultOf(s: Settled): (r: ProviderResult)
    ensures r.Data? <==> s.Fulfilled?
    ensures s.Fulfilled? ==> r.data == s.value
    ensures r.Error? ==> r.error != "" && (r.error == UnknownError || s.message == Some(r.error))
    ensures s.Rejected? && s.message.Some? && s.message.value != "" ==> r == Error(s.message.value)
  {
    match s
    case Fulfilled(value) => Data(value)
    case Rejected(message) =>
      Error(if message.Some? && message.value != "" then message.value else UnknownError)
  }

  /** `result.polyline` used as a condition: present and not ''; an error entry has none. */
  function TruthyPolyline(r: ProviderResult): (p: Option<string>)
    ensures r.Error? ==> p.None?
    ensures p.Some? ==> p.value != "" && r.data.polyline == p
    ensures r.Data? && r.data.polyline.Some? && r.data.polyline.value != "" ==> p.Some?
  {
    if r.Data? && r.data.polyline.Some? && r.data.polyline.value != "" then r.data.polyline else None
  }

  /** The divergence attached for a comparison report. */
  function DivergenceOf(report: RouteMatcher.Report): Divergence {
    Divergence(Reference, report.avgDeviationMeters, report.maxDeviationMeters, report.isDifferentRoute)
  }

  /** `candidate.routeDivergence = { comparedTo: 'google', ...report }`. */
  function WithDivergence(candidate: ProviderResult, report: RouteMatcher.Report): ProviderResult
    requires candidate.Data?
  {
    Data(candidate.data.(routeDivergence := Some(DivergenceOf(report))))
  }

  /**
   * A candidate after the divergence step: annotated when the reference and the
   * candidate both have a polyline and compareRoutes does not return null. The step
   * changes nothing but `routeDivergence`, and never touches an error entry.
   */
  function Annotated(reference: ProviderResult, candidate: ProviderResult, dist: RouteMatcher.Distance)
    : (a: ProviderResult)
    ensures candidate.Error? ==> a == candidate
    ensures candidate.Data? ==> a.Data? && a.data.(routeDivergence := candidate.data.routeDivergence) == candidate.data
  {
    var referenceLine := TruthyPolyline(reference);
    var candidateLine := TruthyPolyline(candidate);
    if referenceLine.Some? && candidateLine.Some? then
      match RouteMatcher.Compared(referenceLine.value, candidateLine.value, RouteMatcher.NoOptions, dist)
      case Some(report) => WithDivergence(candidate, report)
      case None => candidate
    else candidate
  }

  /**
   * The record of one route. It names its poll and its route and holds one entry per
   * provider, data exactly when that provider's fetch was fulfilled; Google's entry is
   * passed through as fetched.
   */
  function RecordFor(route: RouteConfig, poll: RoutePoll, dist: RouteMatcher.Distance): (r: PollRecord)
    ensures r.id == poll.id && r.timestamp == poll.timestamp && r.routeId == route.id
    ensures r.google == ResultOf(poll.google)
    ensures r.tomtom.Data? <==> poll.tomtom.Fulfilled?
    ensures r.ola.Data? <==> poll.ola.Fulfilled?
  {
    var google := ResultOf(poll.google);
    PollRecord(poll.id, poll.timestamp, route.id, google,
               Annotated(google, ResultOf(poll.tomtom), dist),
               Annotated(google, ResultOf(poll.ola), dist))
  }

  /** A fulfilled fetch's polyline is a well-formed encoding (see Polyline.GroupsFit). */
  predicate Decodable(s: Settled) {
    s.Fulfilled? && s.value.polyline.Some? ==> Polyline.GroupsFit(s.value.polyline.value)
  }

  predicate PollDecodable(poll: RoutePoll) {
    Decodable(poll.google) && Decodable(poll.tomtom) && Decodable(poll.ola)
  }

  /** The body of pollOnce's loop up to the record: results, divergence, record. */
  method AssembleRecord(route: RouteConfig, poll: RoutePoll, dist: RouteMatcher.Distance)
    returns (record: PollRecord)
    requires PollDecodable(poll)
    ensures record == RecordFor(route, poll, dist)
  {
    var timestamp := poll.timestamp;
    var googleData := ResultOf(poll.google);
    var tomtomData := ResultOf(poll.tomtom);
    var olaData := ResultOf(poll.ola);
    var googleLine := TruthyPolyline(googleData);
    if googleLine.Some? {
      var tomtomLine := TruthyPolyline(tomtomData);
      if tomtomLine.Some? {
        var divergence := RouteMatcher.CompareRoutes(googleLine.value, tomtomLine.value, RouteMatcher.NoOptions, dist);
        if divergence.Some? {
          tomtomData := WithDivergence(tomtomData, divergence.value);
        }
      }
      var olaLine := TruthyPolyline(olaData);
      if olaLine.Some? {
        var divergence := RouteMatcher.CompareRoutes(googleLine.value, olaLine.value, RouteMatcher.NoOptions, dist);
        if divergence.Some? {
          olaData := WithDivergence(olaData, divergence.value);
        }
      }
    }
    record := PollRecord(poll.id, timestamp, route.id, googleData, tomtomData, olaData);
  }

  // ---------------------------------------------------------------------------
  // The store
  // ---------------------------------------------------------------------------

  /** The contents of data/<routeId>.json: a JSON array of records, or text that does not parse. */
  datatype StoredFile = Stored(records: seq<PollRecord>) | Unreadable

  /** readRecords: the records of a route, oldest first; a missing or unreadable file has none. */
  function Lookup(files: map<string, StoredFile>, routeId: string): (records: seq<PollRecord>)
    ensures routeId in files && files[routeId].Stored? ==> records == files[routeId].records
    ensures records != [] ==> routeId in files && files[routeId] == Stored(records)
  {
    if routeId in files && files[routeId].Stored? then files[routeId].records else []
  }

  /** The per-route record files of src/storage.js. */
  class RecordStore {
    var files: map<string, StoredFile>

    constructor (files: map<string, StoredFile>)
      ensures this.files == files
    {
      this.files := files;
    }

    /** readRecords: the parsed file's records, or none when it is missing or unreadable. */
    function Records(routeId: string): (records: seq<PollRecord>)
      reads this
      ensures routeId in files && files[routeId].Stored? ==> records == files[routeId].records
      ensures records != [] ==> routeId in files && files[routeId] == Stored(records)
    {
      Lookup(files, routeId)
    }

    /** appendRecord: read the route's records, push one, write them back. */
    method Append(routeId: string, record: PollRecord)
      modifies this
      ensures files == old(files)[routeId := Stored(old(Records(routeId)) + [record])]
    {
      var records := Records(routeId);
      records := records + [record];
      files := files[routeId := Stored(records)];
    }
  }

  // ---------------------------------------------------------------------------
  // A whole cycle
  // ---------------------------------------------------------------------------

  /** The records of one cycle, in configuration order. */
  function PollRecords(routes: seq<RouteConfig>, polls: seq<RoutePoll>, dist: RouteMatcher.Distance)
    : seq<PollRecord>
    requires |routes| == |polls|
    decreases |routes|
  {
    if routes == [] then []
    else
      var n := |routes| - 1;
      PollRecords(routes[..n], polls[..n], dist) + [RecordFor(routes[n], polls[n], dist)]
  }

  /** The files after appending `records` one after the other, each under its route. */
  function AppendAll(files: map<string, StoredFile>, records: seq<PollRecord>)
    : map<string, StoredFile>
    decreases |records|
  {
    if records == [] then files
    else
      var before := AppendAll(files, records[..|records| - 1]);
      var record := records[|records| - 1];
      before[record.routeId := Stored(Lookup(before, record.routeId) + [record])]
  }

  /** pollOnce: one record per configured route, appended in configuration order. */
  method PollOnce(store: RecordStore, routes: seq<RouteConfig>, polls: seq<RoutePoll>,
                  dist: RouteMatcher.Distance)
    requires |polls| == |routes|
    requires forall i | 0 <= i < |polls| :: PollDecodable(polls[i])
    modifies store
    ensures store.files == AppendAll(old(store.files), PollRecords(routes, polls, dist))
  {
    for i := 0 to |routes|
      invariant store.files == AppendAll(old(store.files), PollRecords(routes[..i], polls[..i], dist))
    {
      var record := AssembleRecord(routes[i], polls[i], dist);
      assert routes[..i + 1][..i] == routes[..i];
      assert polls[..i + 1][..i] == polls[..i];
      store.Append(routes[i].id, record);
    }
    assert routes[..|routes|] == routes;
    assert polls[..|polls|] == polls;
  }

  // ---------------------------------------------------------------------------
  // Properties of one record
  // ---------------------------------------------------------------------------

  /** The entry carries a divergence. */
  predicate HasDivergence(r: ProviderResult) {
    r.Data? && r.data.routeDivergence.Some?
  }

  /**
   * For a fetched candidate without a divergence of its own, a divergence is attached
   * exactly when the reference and the candidate both have a non-empty polyline, and it
   * is compareRoutes' report on the two, marked as compared to Google.
   */
  lemma DivergenceRule(reference: ProviderResult, candidate: ProviderResult, dist: RouteMatcher.Distance)
    requires candidate.Data? ==> candidate.data.routeDivergence.None?
    ensures HasDivergence(Annotated(reference, candidate, dist)) <==>
            TruthyPolyline(reference).Some? && TruthyPolyline(candidate).Some?
    ensures HasDivergence(Annotated(reference, candidate, dist)) ==>
            var d := Annotated(reference, candidate, dist).data.routeDivergence.value;
            d.comparedTo == Reference &&
            RouteMatcher.Compared(TruthyPolyline(reference).value, TruthyPolyline(candidate).value,
                                  RouteMatcher.NoOptions, dist)
            == Some(RouteMatcher.Report(d.avgDeviationMeters, d.maxDeviationMeters, d.isDifferentRoute))
  {
  }

  /** Without a Google polyline (a failed fetch included) neither TomTom nor Ola is compared. */
  lemma NoReferenceNoComparison(route: RouteConfig, poll: RoutePoll, dist: RouteMatcher.Distance)
    requires poll.google.Rejected? || poll.google.value.polyline.None? || poll.google.value.polyline == Some("")
    ensures RecordFor(route, poll, dist).tomtom == ResultOf(poll.tomtom)
    ensures RecordFor(route, poll, dist).ola == ResultOf(poll.ola)
  {
  }

  /** TomTom's entry does not depend on Ola's fetch, nor Ola's on TomTom's. */
  lemma ProvidersIndependent(route: RouteConfig, poll: RoutePoll, dist: RouteMatcher.Distance, other: Settled)
    ensures RecordFor(route, poll.(ola := other), dist).tomtom == RecordFor(route, poll, dist).tomtom
    ensures RecordFor(route, poll.(tomtom := other), dist).ola == RecordFor(route, poll, dist).ola
  {
  }

  /**
   * A provider that returns Google's own non-empty polyline is recorded as following the
   * same route, with zero deviation, for any distance that is zero on equal points.
   */
  lemma SameGeometry(route: RouteConfig, poll: RoutePoll, dist: RouteMatcher.Distance)
    requires RouteMatcher.NonNegative(dist) && RouteMatcher.ZeroOnSelf(dist)
    requires poll.google.Fulfilled? && poll.tomtom.Fulfilled?
    requires poll.tomtom.value.routeDivergence.None?
    requires poll.google.value.polyline == poll.tomtom.value.polyline != Some("")
    requires poll.google.value.polyline.Some?
    ensures RecordFor(route, poll, dist).tomtom ==
            Data(poll.tomtom.value.(routeDivergence := Some(Divergence(Reference, 0, 0, false))))
  {
    RouteMatcher.IdenticalRoutes(poll.google.value.polyline.value, RouteMatcher.NoOptions, dist);
  }

  // ---------------------------------------------------------------------------
  // Properties of a cycle
  // ---------------------------------------------------------------------------

  /** The records among `records` that belong to `routeId`, in order. */
  function OfRoute(records: seq<PollRecord>, routeId: string): seq<PollRecord>
    decreases |records|
  {
    if records == [] then []
    else
      var n := |records| - 1;
      OfRoute(records[..n], routeId) + (if records[n].routeId == routeId then [records[n]] else [])
  }

  /**
   * Appending keeps every route's records and adds its own new ones after them, in order;
   * a route that receives nothing keeps its file as it was, and one that receives
   * something ends with a readable file (an unreadable one is replaced).
   */
  lemma {:induction false} AppendAllRecords(files: map<string, StoredFile>, records: seq<PollRecord>, routeId: string)
    ensures Lookup(AppendAll(files, records), routeId) == Lookup(files, routeId) + OfRoute(records, routeId)
    ensures OfRoute(records, routeId) != [] ==>
            routeId in AppendAll(files, records) && AppendAll(files, records)[routeId].Stored?
    ensures OfRoute(records, routeId) == [] ==>
            (routeId in AppendAll(files, records) <==> routeId in files) &&
            (routeId in files ==> AppendAll(files, records)[routeId] == files[routeId])
    decreases |records|
  {
    if records != [] {
      var n := |records| - 1;
      AppendAllRecords(files, records[..n], routeId);
    }
  }

  /** A cycle produces one record per route, the i-th for the i-th route. */
  lemma {:induction false} PollRecordsInOrder(routes: seq<RouteConfig>, polls: seq<RoutePoll>, dist: RouteMatcher.Distance)
    requires |routes| == |polls|
    ensures |PollRecords(routes, polls, dist)| == |routes|
    ensures forall i | 0 <= i < |routes| :: PollRecords(routes, polls, dist)[i] == RecordFor(routes[i], polls[i], dist)
    decreases |routes|
  {
    if routes != [] {
      var n := |routes| - 1;
      PollRecordsInOrder(routes[..n], polls[..n], dist);
      var prefix := PollRecords(routes[..n], polls[..n], dist);
      var last := RecordFor(routes[n], polls[n], dist);
      var records := PollRecords(routes, polls, dist);
      assert records == prefix + [last];
      forall i | 0 <= i < n
        ensures records[i] == RecordFor(routes[i], polls[i], dist)
      {
        assert records[i] == prefix[i] == RecordFor(routes[..n][i], polls[..n][i], dist);
        assert routes[..n][i] == routes[i] && polls[..n][i] == polls[i];
      }
      assert records[n] == last;
    }
  }

  /** A route that is not configured gets no record in a cycle. */
  lemma {:induction false} NotConfigured(routes: seq<RouteConfig>, polls: seq<RoutePoll>, dist: RouteMatcher.Distance,
                                         routeId: string)
    requires |routes| == |polls|
    requires forall j | 0 <= j < |routes| :: routes[j].id != routeId
    ensures OfRoute(PollRecords(routes, polls, dist), routeId) == []
    decreases |routes|
  {
    if routes != [] {
      var n := |routes| - 1;
      NotConfigured(routes[..n], polls[..n], dist, routeId);
    }
  }

  /** A route whose id no other route shares gets exactly its own record in a cycle. */
  lemma {:induction false} OneRecordPerRoute(routes: seq<RouteConfig>, polls: seq<RoutePoll>, dist: RouteMatcher.Distance,
                                             i: nat)
    requires |routes| == |polls| && i < |routes|
    requires forall j | 0 <= j < |routes| && j != i :: routes[j].id != routes[i].id
    ensures OfRoute(PollRecords(routes, polls, dist), routes[i].id) == [RecordFor(routes[i], polls[i], dist)]
    decreases |routes|
  {
    var n := |routes| - 1;
    if i == n {
      NotConfigured(routes[..n], polls[..n], dist, routes[i].id);
    } else {
      OneRecordPerRoute(routes[..n], polls[..n], dist, i);
    }
  }

  /**
   * After a cycle, each configured route with its own id has its earlier records followed
   * by this cycle's record, and every other route's file is as it was.
   */
  lemma CycleEffect(files: map<string, StoredFile>, routes: seq<RouteConfig>, polls: seq<RoutePoll>,
                    dist: RouteMatcher.Distance, routeId: string)
    requires |routes| == |polls|
    requires forall j, k | 0 <= j < k < |routes| :: routes[j].id != routes[k].id
    ensures var after := AppendAll(files, PollRecords(routes, polls, dist));
            forall i | 0 <= i < |routes| && routes[i].id == routeId ::
              Lookup(after, routeId) == Lookup(files, routeId) + [RecordFor(routes[i], polls[i], dist)]
    ensures var after := AppendAll(files, PollRecords(routes, polls, dist));
            (forall j | 0 <= j < |routes| :: routes[j].id != routeId) ==>
              (routeId in after <==> routeId in files) && (routeId in files ==> after[routeId] == files[routeId])
  {
    var records := PollRecords(routes, polls, dist);
    AppendAllRecords(files, records, routeId);
    forall i | 0 <= i < |routes| && routes[i].id == routeId
      ensures OfRoute(records, routeId) == [RecordFor(routes[i], polls[i], dist)]
    {
      forall j | 0 <= j < |routes| && j != i
        ensures routes[j].id != routes[i].id
      {
        if j < i {
          assert routes[j].id != routes[i].id;
        } else {
          assert routes[i].id != routes[j].id;
        }
      }
      OneRecordPerRoute(routes, polls, dist, i);
    }
    if forall j | 0 <= j < |routes| :: routes[j].id != routeId {
      NotConfigured(routes, polls, dist, routeId);
    }
  }
}
