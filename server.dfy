/**
 * The server as the source writes it: the table of flights, the callback
 * registrations, the reservations and one history per request kind are
 * state kept across calls and updated in place, and the search and the
 * pushes are loops. Every method is proved to compute exactly what the
 * functions of module Service specify, so the properties proved there hold
 * of this code.
 */
module Server {
  import opened Wire
  import opened MessageType
  import opened Transport
  import opened Flights
  import opened FlightSearch
  import opened FlightInfo
  import opened SeatReservation
  import opened SeatAvailability
  import opened Service

  // ---------------------------------------------------------------------
  // Flight search

  /** No two flights share an identifier. */
  predicate DistinctIds(fs: seq<Flight>)
  {
    forall i, j :: 0 <= i < j < |fs| ==> fs[i].identifier != fs[j].identifier
  }

  /** A sequence without two flights of the same identifier holds each of its flights once. */
  lemma {:induction false} DistinctCount(fs: seq<Flight>, f: Flight)
    requires DistinctIds(fs)
    ensures multiset(fs)[f] == if f in fs then 1 else 0
  {
    if fs != [] {
      assert fs == [fs[0]] + fs[1..];
      assert DistinctIds(fs[1..]) by {
        forall i, j | 0 <= i < j < |fs| - 1
          ensures fs[1..][i].identifier != fs[1..][j].identifier
        {
          assert fs[1..][i] == fs[i + 1] && fs[1..][j] == fs[j + 1];
        }
      }
      DistinctCount(fs[1..], f);
      assert fs[0] !in fs[1..];
    }
  }

  /** Two sequences of flights with distinct identifiers and the same elements are permutations of each other. */
  lemma SameFlights(xs: seq<Flight>, ys: seq<Flight>)
    requires DistinctIds(xs) && DistinctIds(ys)
    requires forall f :: f in xs <==> f in ys
    ensures multiset(xs) == multiset(ys)
  {
    forall f
      ensures multiset(xs)[f] == multiset(ys)[f]
    {
      DistinctCount(xs, f);
      DistinctCount(ys, f);
    }
  }

  /** `std::sort` by identifier: an ascending permutation of its input. */
  method SortByIdentifier(xs: seq<Flight>) returns (ys: seq<Flight>)
    ensures Ascending(ys) && multiset(ys) == multiset(xs)
  {
    ys := [];
    for i := 0 to |xs|
      invariant Ascending(ys) && multiset(ys) == multiset(xs[..i])
    {
      InsertByIdAscending(ys, xs[i]);
      ys := InsertById(ys, xs[i]);
      assert xs[..i + 1] == xs[..i] + [xs[i]];
    }
    assert xs[..|xs|] == xs;
  }

  /**
   * The search loop: visit the table in an order the model does not fix,
   * keep the flights from `source` to `destination`, then sort them by
   * identifier. Whatever the visiting order, the result is the one
   * `SearchResults` specifies.
   */
  method SearchFlights(flights: map<i32, Flight>, source: seq<byte>, destination: seq<byte>) returns (results: seq<Flight>)
    requires Keyed(flights)
    ensures results == SearchResults(flights, source, destination)
  {
    var found: seq<Flight> := [];
    var remaining := flights.Keys;
    while remaining != {}
      invariant remaining <= flights.Keys
      invariant forall f :: f in found ==>
        f.identifier in flights && flights[f.identifier] == f && f.identifier !in remaining
        && f.source == source && f.destination == destination
      invariant forall k :: k in flights && k !in remaining && flights[k].source == source && flights[k].destination == destination ==>
        flights[k] in found
      invariant DistinctIds(found)
      decreases remaining
    {
      var k :| k in remaining;
      var flight := flights[k];
      if flight.source == source && flight.destination == destination {
        found := found + [flight];
      }
      remaining := remaining - {k};
    }
    results := SortByIdentifier(found);
    var expected := SearchResults(flights, source, destination);
    SearchResultsExact(flights, source, destination);
    SameFlights(found, expected);
    SortedUnique(results, expected);
  }

  // ---------------------------------------------------------------------
  // Pushes

  /** The loop over a flight's registrations that starts a push for each one that has not expired. */
  method CollectPushes(registered: seq<Callback>, now: int, update: SeatAvailabilityCallbackRequest) returns (pushes: seq<Push>)
    ensures pushes == Pushes(registered, now, update)
  {
    pushes := [];
    assert registered[0..] == registered;
    for i := 0 to |registered|
      invariant pushes + Pushes(registered[i..], now, update) == Pushes(registered, now, update)
    {
      assert registered[i..][1..] == registered[i + 1..];
      if now < registered[i].monitorEnd {
        pushes := pushes + [Push(registered[i].toAddr, update)];
      }
    }
  }

  /** How one push ended. */
  datatype PushOutcome =
    | NoClient                       // no socket could be opened towards the client
    | GaveUp                         // no acknowledgement after every retry
    | InvalidResponse                // the acknowledgement did not decode
    | Rejected(status_code: i32)     // the client acknowledged with a non-zero status
    | Acknowledged

  /**
   * The thread started for one push: open a socket towards the client
   * (`clientCreated` says whether that worked), give the request a fresh id
   * and send it with retries, then decode the acknowledgement.
   */
  method SendSeatAvailabilityCallbackRequest(push: Push, clientCreated: bool, freshId: u64, exchanges: seq<Received>)
    returns (outcome: PushOutcome, sent: seq<seq<byte>>)
    requires |exchanges| == RetryTimes + 1
    ensures !clientCreated ==> outcome == NoClient && sent == []
    ensures clientCreated ==> 1 <= |sent| <= RetryTimes + 1
    ensures forall m :: m in sent ==> m == SeatAvailabilityCallbackRequestBytes(push.request.(id := freshId))
    ensures clientCreated && FirstReply(exchanges).None? ==> outcome == GaveUp
    ensures clientCreated && FirstReply(exchanges).Some? ==>
      var ack := ParseSeatAvailabilityCallbackResponse(FirstReply(exchanges).value.1).value;
      && (ack.None? ==> outcome == InvalidResponse)
      && (ack.Some? ==> outcome == if ack.value.status_code == 0 then Acknowledged else Rejected(ack.value.status_code))
  {
    if !clientCreated {
      return NoClient, [];
    }
    var request := push.request.(id := freshId);
    var data := MarshalSeatAvailabilityCallbackRequest(request);
    var reply;
    reply, sent := SendWithRetries(data, exchanges);
    if reply.None? {
      return GaveUp, sent;
    }
    var _, ack := UnmarshalSeatAvailabilityCallbackResponse(reply.value);
    if ack.None? {
      outcome := InvalidResponse;
    } else if ack.value.status_code != 0 {
      outcome := Rejected(ack.value.status_code);
    } else {
      outcome := Acknowledged;
    }
  }

  /** Every datagram of a push decodes to the pushed update, under the id the pushing thread gave it. */
  lemma PushDecodes(push: Push, freshId: u64, m: seq<byte>)
    requires m == SeatAvailabilityCallbackRequestBytes(push.request.(id := freshId))
    ensures ParseSeatAvailabilityCallbackRequest(m).value ==
      Some(SeatAvailabilityCallbackRequest(freshId, push.request.identifier, push.request.seat_availability))
  {
    SeatAvailabilityCallbackRequestRoundTrip(push.request.(id := freshId), []);
    assert m + [] == m;
  }

  // ---------------------------------------------------------------------
  // The handler

  /**
   * The state `Serve` keeps in statics across calls: the tables, set up
   * from the flights read at start-up on the first call, and the six
   * histories.
   */
  class FlightServer {
    var flights: map<i32, Flight>
    var callbacks: map<i32, seq<Callback>>
    var reservations: map<u64, Reservation>
    var history: History

    /** The state as the specification functions see it. */
    function Snapshot(): State
      reads this
    {
      State(Tables(flights, callbacks, reservations), history)
    }

    /** What holds between calls. */
    predicate Valid()
      reads this
    {
      Service.Valid(Snapshot().tables)
    }

    /** The first call's set-up: the flights read at start-up, emplaced in file order, and nothing else. */
    constructor (fs: seq<Flight>)
      ensures Snapshot() == Initial(fs)
      ensures Valid()
    {
      var table := map[];
      for i := 0 to |fs|
        invariant table == FlightTable(fs[..i])
      {
        assert fs[..i + 1][..i] == fs[..i];
        if fs[i].identifier !in table {
          table := table[fs[i].identifier := fs[i]];
        }
      }
      assert fs[..|fs|] == fs;
      flights := table;
      callbacks := map[];
      reservations := map[];
      history := History(map[], map[], map[], map[], map[], map[]);
    }

    /** The seat reservation branch, after the replay check. */
    method ReserveSeats(q: SeatReservationRequest, now: Seconds) returns (res: SeatReservationResponse, pushes: seq<Push>)
      modifies this
      ensures (Tables(flights, callbacks, reservations), res, pushes) == Reserve(old(Tables(flights, callbacks, reservations)), q, now)
      ensures history == old(history)
    {
      pushes := [];
      if q.identifier !in flights {
        res := SeatReservationResponse(q.id, 1, FlightNotFound, q.identifier, 0);
        return;
      }
      var flight := flights[q.identifier];
      if flight.seat_availability < q.seats {
        res := SeatReservationResponse(q.id, 2, NoEnoughSeats, q.identifier, 0);
        return;
      }
      flight := flight.(seat_availability := Wrap32(flight.seat_availability - q.seats));
      flights := flights[q.identifier := flight];
      if q.id !in reservations {
        reservations := reservations[q.id := Reservation(q.identifier, q.seats)];
      }
      res := SeatReservationResponse(q.id, 0, [], q.identifier, q.seats);
      var registered := Registrations(callbacks, q.identifier);
      callbacks := callbacks[q.identifier := registered];
      pushes := CollectPushes(registered, now, SeatAvailabilityCallbackRequest(0, flight.identifier, flight.seat_availability));
    }

    /** The seat availability monitoring branch, after the replay check. */
    method RegisterCallback(q: SeatAvailabilityMonitoringRequest, from: SocketAddress, now: Seconds)
      returns (res: SeatAvailabilityMonitoringResponse)
      modifies this
      ensures (Tables(flights, callbacks, reservations), res) == Monitor(old(Tables(flights, callbacks, reservations)), q, from, now)
      ensures history == old(history)
    {
      if q.identifier !in flights {
        res := SeatAvailabilityMonitoringResponse(q.id, 1, FlightNotFound, q.identifier, 0);
        return;
      }
      if q.identifier !in callbacks {
        callbacks := callbacks[q.identifier := []];
      }
      var monitorEnd := now + q.monitor_interval_sec;
      var toAddr := SocketAddress(from.protocol, from.address, q.port);
      callbacks := callbacks[q.identifier := callbacks[q.identifier] + [Callback(toAddr, monitorEnd)]];
      assert callbacks == old(callbacks)[q.identifier := Registrations(old(callbacks), q.identifier) + [Callback(toAddr, monitorEnd)]];
      res := SeatAvailabilityMonitoringResponse(q.id, 0, [], q.identifier, monitorEnd);
    }

    /** The cancellation branch, after the replay check. */
    method CancelSeats(q: SeatReservationCancellationRequest, now: Seconds)
      returns (res: SeatReservationCancellationResponse, pushes: seq<Push>)
      modifies this
      ensures (Tables(flights, callbacks, reservations), res, pushes) == Cancel(old(Tables(flights, callbacks, reservations)), q, now)
      ensures history == old(history)
    {
      pushes := [];
      if q.reservation_req_id !in reservations {
        res := SeatReservationCancellationResponse(q.id, 1, ReservationNotFound, 0, 0);
        return;
      }
      var reservation := reservations[q.reservation_req_id];
      if reservation.identifier != q.identifier {
        res := SeatReservationCancellationResponse(q.id, 2, IdentifierMismatch, 0, 0);
        return;
      }
      flights := WithFlight(flights, q.identifier);
      var flight := flights[q.identifier];
      if q.seats > reservation.seats {
        res := SeatReservationCancellationResponse(q.id, 3, TooManySeatsToCancel, 0, 0);
        return;
      }
      reservations := reservations[q.reservation_req_id := reservation.(seats := Wrap32(reservation.seats - q.seats))];
      flight := flight.(seat_availability := Wrap32(flight.seat_availability + q.seats));
      flights := flights[q.identifier := flight];
      res := SeatReservationCancellationResponse(q.id, 0, [], q.identifier, q.seats);
      var registered := Registrations(callbacks, q.identifier);
      callbacks := callbacks[q.identifier := registered];
      pushes := CollectPushes(registered, now, SeatAvailabilityCallbackRequest(0, flight.identifier, flight.seat_availability));
    }

    /** The work of one branch once the request is neither lost nor a replay. */
    method ComputeReply(request: Request, from: SocketAddress, now: Seconds, select: PriceRangeSelection)
      returns (reply: Reply, pushes: seq<Push>)
      requires Valid()
      modifies this
      ensures (Tables(flights, callbacks, reservations), reply, pushes) == Compute(old(Tables(flights, callbacks, reservations)), request, from, now, select)
      ensures history == old(history)
    {
      pushes := [];
      match request
      case SearchRequest(q) =>
        var results := SearchFlights(flights, q.source, q.destination);
        if |results| == 0 {
          reply := SearchReply(FlightSearchResponse(q.id, 1, FlightsNotFound, results));
        } else {
          reply := SearchReply(FlightSearchResponse(q.id, 0, [], results));
        }
      case InfoRequest(q) =>
        reply := InfoReply(InfoResponse(flights, q));
      case ReservationRequest(q) =>
        var res;
        res, pushes := ReserveSeats(q, now);
        reply := ReservationReply(res);
      case MonitoringRequest(q) =>
        var res := RegisterCallback(q, from, now);
        reply := MonitoringReply(res);
      case PriceRangeRequest(q) =>
        reply := PriceRangeReply(PriceRangeResponse(flights, q, select));
      case CancellationRequest(q) =>
        var res;
        res, pushes := CancelSeats(q, now);
        reply := CancellationReply(res);
    }

    /** One decoded request: the loss draw, the replay check, the work, the history update and the response-loss draw. */
    method ServeRequest(request: Request, semantic: InvocationSemantic, from: SocketAddress, loss: LossDraw,
                        now: Seconds, select: PriceRangeSelection)
      returns (reply: Option<Reply>, pushes: seq<Push>)
      requires Valid()
      modifies this
      ensures Outcome(Snapshot(), reply, pushes) == Handle(old(Snapshot()), request, semantic, from, loss, now, select)
    {
      if loss.requestLost {
        return None, [];
      }
      if semantic == AtMostOnce && Known(history, request) {
        return Deliver(Stored(history, request), loss), [];
      }
      var response;
      response, pushes := ComputeReply(request, from, now, select);
      if semantic == AtMostOnce {
        history := Record(history, request, response);
      }
      reply := Deliver(response, loss);
    }

    /**
     * One call of the handler: give up on a receive error, try the
     * decoders in the source's order, and serve the first request one of
     * them accepts. `cancel` is what the cancellation decoder, which this
     * model does not include, makes of the datagram.
     */
    method Serve(semantic: InvocationSemantic, from: SocketAddress, received: Received,
                 cancel: Option<SeatReservationCancellationRequest>, loss: LossDraw, now: Seconds,
                 select: PriceRangeSelection)
      returns (reply: Option<Reply>, pushes: seq<Push>)
      requires Valid()
      modifies this
      ensures Outcome(Snapshot(), reply, pushes) == Step(old(Snapshot()), semantic, from, received, cancel, loss, now, select)
      ensures Valid()
    {
      StepKeepsValid(Snapshot(), semantic, from, received, cancel, loss, now, select);
      if received.RecvError? {
        return None, [];
      }
      var request := Decode(received.bytes, cancel);
      if request.None? {
        return None, [];
      }
      reply, pushes := ServeRequest(request.value, semantic, from, loss, now, select);
    }
  }

  /** The decoders tried in the handler's order; the first that accepts the datagram decides its kind. */
  method Decode(d: seq<byte>, cancel: Option<SeatReservationCancellationRequest>) returns (request: Option<Request>)
    ensures request == Classify(d, cancel)
  {
    var _, search := UnmarshalFlightSearchRequest(d);
    if search.Some? {
      return Some(SearchRequest(search.value));
    }
    var _, info := UnmarshalFlightInfoRequest(d);
    if info.Some? {
      return Some(InfoRequest(info.value));
    }
    var _, reservation := UnmarshalSeatReservationRequest(d);
    if reservation.Some? {
      return Some(ReservationRequest(reservation.value));
    }
    var _, monitoring := UnmarshalSeatAvailabilityMonitoringRequest(d);
    if monitoring.Some? {
      return Some(MonitoringRequest(monitoring.value));
    }
    var _, priceRange := UnmarshalPriceRangeSearchRequest(d);
    if priceRange.Some? {
      return Some(PriceRangeRequest(priceRange.value));
    }
    if cancel.Some? {
      return Some(CancellationRequest(cancel.value));
    }
    return None;
  }
}
