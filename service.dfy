/**
 * The server's request handling (`Serve` in src/server/main.cc) as a pure
 * state machine. The handler's function-local statics become one `State`
 * value: the flight table, the monitoring registrations per flight, the
 * reservations by request id, and one history per request kind mapping a
 * request id to the request and the response computed for it.
 *
 * Everything the handler takes from its environment is an explicit input:
 * the receive outcome, the peer's address, the two loss draws, the clock
 * (whole seconds) and, for the two parts the model does not spell out, the
 * price-range selection (a float comparison and sort) and the cancellation
 * request decoded from the datagram (its codec is not part of this model).
 */
module Service {
  import opened Wire
  import opened MessageType
  import opened Transport
  import opened Flights
  import opened FlightSearch
  import opened FlightInfo
  import opened SeatReservation
  import opened SeatAvailability

  /** A clock reading in whole seconds since the epoch; the bound keeps `now + interval` within an i64. */
  type Seconds = t: int | 0 <= t < 0x4000_0000_0000_0000

  /** A monitoring registration: where to push, and until when. */
  datatype Callback = Callback(toAddr: SocketAddress, monitorEnd: int)

  datatype Reservation = Reservation(identifier: i32, seats: i32)

  /** Cancel `seats` of the seats reserved by the reservation request `reservation_req_id`. */
  datatype SeatReservationCancellationRequest = SeatReservationCancellationRequest(
    id: u64,
    reservation_req_id: u64,
    identifier: i32,
    seats: i32)

  datatype SeatReservationCancellationResponse = SeatReservationCancellationResponse(
    id: u64,
    status_code: i32,
    message: seq<byte>,
    identifier: i32,
    seats: i32)

  /** The float comparison and sort of a price-range search, which the model leaves abstract. */
  type PriceRangeSelection = (map<i32, Flight>, f32, f32) -> seq<Flight>

  /** What the server keeps about flights: the table, the registrations per flight and the reservations by request id. */
  datatype Tables = Tables(
    flights: map<i32, Flight>,
    callbacks: map<i32, seq<Callback>>,
    reservations: map<u64, Reservation>)

  /** For each request kind, the request and the response computed for it, by request id. */
  datatype History = History(
    search: map<u64, (FlightSearchRequest, FlightSearchResponse)>,
    info: map<u64, (FlightInfoRequest, FlightInfoResponse)>,
    reservation: map<u64, (SeatReservationRequest, SeatReservationResponse)>,
    monitoring: map<u64, (SeatAvailabilityMonitoringRequest, SeatAvailabilityMonitoringResponse)>,
    priceRange: map<u64, (PriceRangeSearchRequest, PriceRangeSearchResponse)>,
    cancellation: map<u64, (SeatReservationCancellationRequest, SeatReservationCancellationResponse)>)

  datatype State = State(tables: Tables, history: History)

  /** A request as the server's chain of decoders classifies a datagram. */
  datatype Request =
    | SearchRequest(search: FlightSearchRequest)
    | InfoRequest(info: FlightInfoRequest)
    | ReservationRequest(reservation: SeatReservationRequest)
    | MonitoringRequest(monitoring: SeatAvailabilityMonitoringRequest)
    | PriceRangeRequest(priceRange: PriceRangeSearchRequest)
    | CancellationRequest(cancellation: SeatReservationCancellationRequest)

  /** The response record the server marshals and sends back. */
  datatype Reply =
    | SearchReply(searchResponse: FlightSearchResponse)
    | InfoReply(infoResponse: FlightInfoResponse)
    | ReservationReply(reservationResponse: SeatReservationResponse)
    | MonitoringReply(monitoringResponse: SeatAvailabilityMonitoringResponse)
    | PriceRangeReply(priceRangeResponse: PriceRangeSearchResponse)
    | CancellationReply(cancellationResponse: SeatReservationCancellationResponse)

  /** A seat-availability push the server starts, on its own thread, towards a monitoring client. */
  datatype Push = Push(to: SocketAddress, request: SeatAvailabilityCallbackRequest)

  datatype Outcome = Outcome(state: State, reply: Option<Reply>, pushes: seq<Push>)

  // ---------------------------------------------------------------------
  // Status messages, as the bytes of their ASCII text

  /** "Flights not found" */
  const FlightsNotFound: seq<byte> := [70, 108, 105, 103, 104, 116, 115, 32, 110, 111, 116, 32, 102, 111, 117, 110, 100]
  /** "Flight not found" */
  const FlightNotFound: seq<byte> := [70, 108, 105, 103, 104, 116, 32, 110, 111, 116, 32, 102, 111, 117, 110, 100]
  /** "No enough seats" */
  const NoEnoughSeats: seq<byte> := [78, 111, 32, 101, 110, 111, 117, 103, 104, 32, 115, 101, 97, 116, 115]
  /** "Reservation not found" */
  const ReservationNotFound: seq<byte> := [82, 101, 115, 101, 114, 118, 97, 116, 105, 111, 110, 32, 110, 111, 116, 32, 102, 111, 117, 110, 100]
  /** "Identifier mismatch" */
  const IdentifierMismatch: seq<byte> := [73, 100, 101, 110, 116, 105, 102, 105, 101, 114, 32, 109, 105, 115, 109, 97, 116, 99, 104]
  /** "Too many seats to cancel" */
  const TooManySeatsToCancel: seq<byte> := [84, 111, 111, 32, 109, 97, 110, 121, 32, 115, 101, 97, 116, 115, 32, 116, 111, 32, 99, 97, 110, 99, 101, 108]

  // ---------------------------------------------------------------------
  // The flight table

  /** Every flight is filed under its own identifier. */
  predicate Keyed(flights: map<i32, Flight>)
  {
    forall k :: k in flights ==> flights[k].identifier == k
  }

  /** What holds of the tables in every state the server can reach. */
  predicate Valid(t: Tables)
  {
    && Keyed(t.flights)
    && (forall r :: r in t.reservations ==> t.reservations[r].identifier in t.flights)
  }

  /**
   * The table built from the flights read at start-up, in file order:
   * each flight is emplaced under its identifier, so the first flight with
   * a given identifier wins.
   */
  function FlightTable(fs: seq<Flight>): (table: map<i32, Flight>)
    ensures Keyed(table)
    ensures forall i :: 0 <= i < |fs| ==> fs[i].identifier in table
    ensures forall k :: k in table ==> exists i :: 0 <= i < |fs| && fs[i] == table[k]
  {
    if fs == [] then map[] else
    var table := FlightTable(fs[..|fs| - 1]);
    var f := fs[|fs| - 1];
    assert forall i :: 0 <= i < |fs| - 1 ==> fs[..|fs| - 1][i] == fs[i];
    if f.identifier in table then table else table[f.identifier := f]
  }

  /** The state before the first request: the table read at start-up and nothing else. */
  function Initial(fs: seq<Flight>): (s: State)
    ensures Valid(s.tables) && s.tables.reservations == map[] && s.tables.callbacks == map[]
  {
    State(Tables(FlightTable(fs), map[], map[]), History(map[], map[], map[], map[], map[], map[]))
  }

  /** The table after `flights[k]`, which files a value-initialised flight under `k` when there is none. */
  function WithFlight(flights: map<i32, Flight>, k: i32): (r: map<i32, Flight>)
    ensures k in r
  {
    if k in flights then flights else flights[k := Flight(0, [], [], 0, PositiveZero, 0)]
  }

  /** What `callbacks[k]` yields: the registrations for flight `k`, or none. */
  function Registrations(callbacks: map<i32, seq<Callback>>, k: i32): seq<Callback>
  {
    if k in callbacks then callbacks[k] else []
  }

  // ---------------------------------------------------------------------
  // Flight search

  predicate Ascending(fs: seq<Flight>)
  {
    forall i, j :: 0 <= i < j < |fs| ==> fs[i].identifier <= fs[j].identifier
  }

  predicate StrictlyAscending(fs: seq<Flight>)
  {
    forall i, j :: 0 <= i < j < |fs| ==> fs[i].identifier < fs[j].identifier
  }

  /** `k` is the least element of `keys`. */
  predicate IsLeast(k: i32, keys: set<i32>)
  {
    k in keys && forall j :: j in keys ==> k <= j
  }

  lemma {:induction false} LeastExists(keys: set<i32>)
    requires keys != {}
    ensures exists k :: IsLeast(k, keys)
    decreases |keys|
  {
    var x :| x in keys;
    var rest := keys - {x};
    if rest == {} {
      forall j | j in keys
        ensures x <= j
      {
        assert j !in rest;
      }
      assert IsLeast(x, keys);
    } else {
      LeastExists(rest);
      var m :| IsLeast(m, rest);
      var least := if x < m then x else m;
      forall j | j in keys
        ensures least <= j
      {
        if j != x {
          assert j in rest;
        }
      }
      assert IsLeast(least, keys);
    }
  }

  /** The least key of a non-empty set. */
  function MinKey(keys: set<i32>): (k: i32)
    requires keys != {}
    ensures IsLeast(k, keys)
  {
    LeastExists(keys);
    var k :| IsLeast(k, keys);
    k
  }

  /** The flights filed under `keys`, in ascending key order. */
  function InKeyOrder(flights: map<i32, Flight>, keys: set<i32>): seq<Flight>
    requires keys <= flights.Keys
    decreases keys
  {
    if keys == {} then [] else
    var k := MinKey(keys);
    [flights[k]] + InKeyOrder(flights, keys - {k})
  }

  function MatchingKeys(flights: map<i32, Flight>, source: seq<byte>, destination: seq<byte>): set<i32>
  {
    set k | k in flights && flights[k].source == source && flights[k].destination == destination
  }

  /** The flights from `source` to `destination`, in ascending identifier order. */
  function SearchResults(flights: map<i32, Flight>, source: seq<byte>, destination: seq<byte>): seq<Flight>
  {
    InKeyOrder(flights, MatchingKeys(flights, source, destination))
  }

  lemma {:induction false} InKeyOrderSorted(flights: map<i32, Flight>, keys: set<i32>)
    requires keys <= flights.Keys && Keyed(flights)
    ensures var r := InKeyOrder(flights, keys);
      && StrictlyAscending(r)
      && (forall i :: 0 <= i < |r| ==> r[i].identifier in keys && r[i] == flights[r[i].identifier])
      && (forall k :: k in keys ==> flights[k] in r)
    decreases keys
  {
    if keys != {} {
      var k := MinKey(keys);
      var rest := InKeyOrder(flights, keys - {k});
      var r := [flights[k]] + rest;
      InKeyOrderSorted(flights, keys - {k});
      assert InKeyOrder(flights, keys) == r;
      forall i, j | 0 <= i < j < |r|
        ensures r[i].identifier < r[j].identifier
      {
        if i == 0 {
          assert r[j] == rest[j - 1];
          assert k <= rest[j - 1].identifier && rest[j - 1].identifier != k;
        } else {
          assert r[i] == rest[i - 1] && r[j] == rest[j - 1];
        }
      }
      forall i | 0 <= i < |r|
        ensures r[i].identifier in keys && r[i] == flights[r[i].identifier]
      {
        if i > 0 {
          assert r[i] == rest[i - 1];
        }
      }
      forall j | j in keys
        ensures flights[j] in r
      {
        if j != k {
          assert flights[j] in rest;
        }
      }
    }
  }

  /**
   * The search finds exactly the flights whose source and destination both
   * match, each once, in strictly ascending identifier order.
   */
  lemma SearchResultsExact(flights: map<i32, Flight>, source: seq<byte>, destination: seq<byte>)
    requires Keyed(flights)
    ensures var r := SearchResults(flights, source, destination);
      && StrictlyAscending(r)
      && forall f :: f in r <==> f in flights.Values && f.source == source && f.destination == destination
  {
    var keys := MatchingKeys(flights, source, destination);
    var r := SearchResults(flights, source, destination);
    InKeyOrderSorted(flights, keys);
    forall f
      ensures f in r <==> f in flights.Values && f.source == source && f.destination == destination
    {
      if f in flights.Values && f.source == source && f.destination == destination {
        var k :| k in flights && flights[k] == f;
        assert k in keys;
      }
    }
  }

  /** Inserts a flight before the first flight with an identifier at least its own. */
  function InsertById(fs: seq<Flight>, f: Flight): (r: seq<Flight>)
    ensures multiset(r) == multiset(fs) + multiset{f}
  {
    if fs == [] || f.identifier <= fs[0].identifier then [f] + fs
    else
      assert fs == [fs[0]] + fs[1..];
      [fs[0]] + InsertById(fs[1..], f)
  }

  /** Insertion keeps a sequence in ascending identifier order. */
  lemma {:induction false} InsertByIdAscending(fs: seq<Flight>, f: Flight)
    requires Ascending(fs)
    ensures Ascending(InsertById(fs, f))
  {
    if fs != [] && f.identifier > fs[0].identifier {
      var rest := InsertById(fs[1..], f);
      InsertByIdAscending(fs[1..], f);
      forall k | 0 <= k < |rest|
        ensures fs[0].identifier <= rest[k].identifier
      {
        assert rest[k] in multiset(rest);
        if rest[k] != f {
          assert rest[k] in multiset(fs[1..]);
          var i :| 0 <= i < |fs[1..]| && fs[1..][i] == rest[k];
          assert fs[i + 1] == rest[k];
        }
      }
    }
  }

  /**
   * An ascending sequence and a strictly ascending one with the same
   * elements are the same sequence: the sorted order of flights with
   * distinct identifiers is unique.
   */
  lemma {:induction false} SortedUnique(xs: seq<Flight>, ys: seq<Flight>)
    requires Ascending(xs) && StrictlyAscending(ys) && multiset(xs) == multiset(ys)
    ensures xs == ys
  {
    if xs != [] {
      SortedHeads(xs, ys);
      TailMultiset(xs);
      TailMultiset(ys);
      SortedUnique(xs[1..], ys[1..]);
      assert xs == [xs[0]] + xs[1..] && ys == [ys[0]] + ys[1..];
    } else {
      assert |ys| == |multiset(ys)| == 0;
    }
  }

  lemma SortedHeads(xs: seq<Flight>, ys: seq<Flight>)
    requires Ascending(xs) && StrictlyAscending(ys) && multiset(xs) == multiset(ys) && xs != []
    ensures ys != [] && xs[0] == ys[0]
  {
    assert xs[0] in multiset(ys);
    var i :| 0 <= i < |ys| && ys[i] == xs[0];
    assert ys[0] in multiset(xs);
    var j :| 0 <= j < |xs| && xs[j] == ys[0];
    assert xs[0].identifier <= ys[0].identifier;
  }

  lemma TailMultiset(xs: seq<Flight>)
    requires xs != []
    ensures multiset(xs[1..]) == multiset(xs) - multiset{xs[0]}
  {
    assert xs == [xs[0]] + xs[1..];
  }

  function SearchResponse(flights: map<i32, Flight>, req: FlightSearchRequest): (res: FlightSearchResponse)
    ensures res.id == req.id
    ensures res.status_code == 0 <==> res.flights != []
    ensures res.status_code != 0 ==> res.status_code == 1 && res.message == FlightsNotFound
  {
    var results := SearchResults(flights, req.source, req.destination);
    if |results| == 0 then FlightSearchResponse(req.id, 1, FlightsNotFound, results)
    else FlightSearchResponse(req.id, 0, [], results)
  }

  /**
   * A search succeeds exactly when some flight has the requested route, and
   * then lists every such flight once, ascending by identifier.
   */
  lemma SearchResponseExact(flights: map<i32, Flight>, req: FlightSearchRequest)
    requires Keyed(flights)
    ensures var res := SearchResponse(flights, req);
      && StrictlyAscending(res.flights)
      && (forall f :: f in res.flights <==> f in flights.Values && f.source == req.source && f.destination == req.destination)
      && (res.status_code == 0 <==> exists k :: k in flights && flights[k].source == req.source && flights[k].destination == req.destination)
  {
    var res := SearchResponse(flights, req);
    SearchResultsExact(flights, req.source, req.destination);
    if exists k :: k in flights && flights[k].source == req.source && flights[k].destination == req.destination {
      var k :| k in flights && flights[k].source == req.source && flights[k].destination == req.destination;
      assert flights[k] in res.flights;
    }
    if res.status_code == 0 {
      var f := res.flights[0];
      assert f in flights.Values;
      var k :| k in flights && flights[k] == f;
    }
  }

  /**
   * The price-range reply: the flights `select` picks for the request's
   * bounds, or status 1 and "Flights not found" when it picks none.
   */
  function PriceRangeResponse(flights: map<i32, Flight>, req: PriceRangeSearchRequest, select: PriceRangeSelection): (res: PriceRangeSearchResponse)
    ensures res.id == req.id
    ensures res.status_code == 0 <==> res.flights != []
    ensures res.status_code != 0 ==> res.status_code == 1 && res.message == FlightsNotFound
    ensures res.flights == select(flights, req.from, req.to)
  {
    var results := select(flights, req.from, req.to);
    if |results| == 0 then PriceRangeSearchResponse(req.id, 1, FlightsNotFound, results)
    else PriceRangeSearchResponse(req.id, 0, [], results)
  }

  // ---------------------------------------------------------------------
  // Flight information

  function InfoResponse(flights: map<i32, Flight>, req: FlightInfoRequest): (res: FlightInfoResponse)
    ensures res.id == req.id
    ensures res.status_code == 0 <==> req.identifier in flights
    ensures res.status_code == 0 ==> res.flight == [flights[req.identifier]]
    ensures res.status_code != 0 ==> res.status_code == 1 && res.flight == []
  {
    if req.identifier !in flights then FlightInfoResponse(req.id, 1, FlightNotFound, [])
    else FlightInfoResponse(req.id, 0, [], [flights[req.identifier]])
  }

  // ---------------------------------------------------------------------
  // Pushes

  /**
   * The pushes of `update` to the registrations that have not expired at
   * `now`, in registration order; expired ones are skipped but kept.
   */
  function Pushes(registered: seq<Callback>, now: int, update: SeatAvailabilityCallbackRequest): (r: seq<Push>)
    ensures |r| <= |registered|
  {
    if registered == [] then []
    else (if now < registered[0].monitorEnd then [Push(registered[0].toAddr, update)] else []) + Pushes(registered[1..], now, update)
  }

  /** Exactly the unexpired registrations are pushed, each the same update. */
  lemma {:induction false} PushesExact(registered: seq<Callback>, now: int, update: SeatAvailabilityCallbackRequest)
    ensures forall p :: p in Pushes(registered, now, update) <==>
      p.request == update && exists c :: c in registered && now < c.monitorEnd && c.toAddr == p.to
    ensures |Pushes(registered, now, update)| == |LiveIndices(registered, now)|
  {
    PushesCount(registered, now, update);
    if registered != [] {
      PushesExact(registered[1..], now, update);
      assert forall c :: c in registered <==> c == registered[0] || c in registered[1..];
    }
  }

  /** The positions of the registrations that have not expired at `now`. */
  ghost function LiveIndices(registered: seq<Callback>, now: int): set<int>
  {
    set i | 0 <= i < |registered| && now < registered[i].monitorEnd
  }

  lemma {:induction false} PushesAppend(a: seq<Callback>, b: seq<Callback>, now: int, update: SeatAvailabilityCallbackRequest)
    ensures Pushes(a + b, now, update) == Pushes(a, now, update) + Pushes(b, now, update)
  {
    if a == [] {
      assert a + b == b;
    } else {
      assert (a + b)[0] == a[0] && (a + b)[1..] == a[1..] + b;
      PushesAppend(a[1..], b, now, update);
    }
  }

  /** One push per live registration, so a client registered twice is pushed twice. */
  lemma {:induction false} PushesCount(registered: seq<Callback>, now: int, update: SeatAvailabilityCallbackRequest)
    ensures |Pushes(registered, now, update)| == |LiveIndices(registered, now)|
    decreases |registered|
  {
    if registered == [] {
      assert LiveIndices(registered, now) == {};
    } else {
      var n := |registered| - 1;
      var front := registered[..n];
      assert registered == front + [registered[n]];
      PushesAppend(front, [registered[n]], now, update);
      PushesCount(front, now, update);
      var last := if now < registered[n].monitorEnd then {n} else {};
      assert LiveIndices(registered, now) == LiveIndices(front, now) + last;
      assert n !in LiveIndices(front, now);
    }
  }

  // ---------------------------------------------------------------------
  // Seat reservation

  /** A reservation that is not a replay: the new tables, the response and the pushes. */
  function Reserve(t: Tables, req: SeatReservationRequest, now: Seconds): (r: (Tables, SeatReservationResponse, seq<Push>))
    ensures r.1.id == req.id && r.1.identifier == req.identifier
    ensures r.1.status_code == 0 <==> req.identifier in t.flights && req.seats <= t.flights[req.identifier].seat_availability
    ensures r.1.status_code == 0 ==> r.1.seats == req.seats && r.0.flights.Keys == t.flights.Keys
    ensures r.1.status_code != 0 ==> r.0 == t && r.2 == [] && r.1.seats == 0
  {
    if req.identifier !in t.flights then
      (t, SeatReservationResponse(req.id, 1, FlightNotFound, req.identifier, 0), [])
    else
      var flight := t.flights[req.identifier];
      if flight.seat_availability < req.seats then
        (t, SeatReservationResponse(req.id, 2, NoEnoughSeats, req.identifier, 0), [])
      else
        var updated := flight.(seat_availability := Wrap32(flight.seat_availability - req.seats));
        var registered := Registrations(t.callbacks, req.identifier);
        var reservations :=
          if req.id in t.reservations then t.reservations
          else t.reservations[req.id := Reservation(req.identifier, req.seats)];
        (Tables(t.flights[req.identifier := updated], t.callbacks[req.identifier := registered], reservations),
         SeatReservationResponse(req.id, 0, [], req.identifier, req.seats),
         Pushes(registered, now, SeatAvailabilityCallbackRequest(0, updated.identifier, updated.seat_availability)))
  }

  /**
   * The two ways a reservation is refused, checked in this order: an
   * unknown flight (status 1) and fewer seats available than asked for
   * (status 2). A refusal changes nothing, pushes nothing and reports no
   * seats.
   */
  lemma ReservationRefused(t: Tables, req: SeatReservationRequest, now: Seconds)
    ensures req.identifier !in t.flights ==>
      Reserve(t, req, now) == (t, SeatReservationResponse(req.id, 1, FlightNotFound, req.identifier, 0), [])
    ensures req.identifier in t.flights && t.flights[req.identifier].seat_availability < req.seats ==>
      Reserve(t, req, now) == (t, SeatReservationResponse(req.id, 2, NoEnoughSeats, req.identifier, 0), [])
  {
  }

  /**
   * An accepted reservation: the flight loses `seats` seats, the
   * reservation is filed under the request id unless one is already filed
   * there, every unexpired registration for the flight is pushed the new
   * count, and the tables stay valid.
   */
  lemma ReservationAccepted(t: Tables, req: SeatReservationRequest, now: Seconds)
    requires Valid(t) && req.identifier in t.flights && req.seats <= t.flights[req.identifier].seat_availability
    ensures var (t', res, pushes) := Reserve(t, req, now);
      var f := t.flights[req.identifier];
      var available := Wrap32(f.seat_availability - req.seats);
      && res == SeatReservationResponse(req.id, 0, [], req.identifier, req.seats)
      && t'.flights == t.flights[req.identifier := f.(seat_availability := available)]
      && t'.reservations == (if req.id in t.reservations then t.reservations
                             else t.reservations[req.id := Reservation(req.identifier, req.seats)])
      && (forall k :: Registrations(t'.callbacks, k) == Registrations(t.callbacks, k))
      && pushes == Pushes(Registrations(t.callbacks, req.identifier), now, SeatAvailabilityCallbackRequest(0, req.identifier, available))
      && Valid(t')
  {
  }

  // ---------------------------------------------------------------------
  // Seat availability monitoring

  /** A registration that is not a replay. The port the push goes to is the request's `port`. */
  function Monitor(t: Tables, req: SeatAvailabilityMonitoringRequest, from: SocketAddress, now: Seconds): (r: (Tables, SeatAvailabilityMonitoringResponse))
    ensures r.1.id == req.id && r.0.flights == t.flights && r.0.reservations == t.reservations
    ensures r.1.status_code == 0 <==> req.identifier in t.flights
    ensures r.1.status_code != 0 ==> r.1.status_code == 1 && r.0 == t
  {
    if req.identifier !in t.flights then
      (t, SeatAvailabilityMonitoringResponse(req.id, 1, FlightNotFound, req.identifier, 0))
    else
      var monitorEnd := now + req.monitor_interval_sec;
      var toAddr := SocketAddress(from.protocol, from.address, req.port);
      (t.(callbacks := t.callbacks[req.identifier := Registrations(t.callbacks, req.identifier) + [Callback(toAddr, monitorEnd)]]),
       SeatAvailabilityMonitoringResponse(req.id, 0, [], req.identifier, monitorEnd))
  }

  // ---------------------------------------------------------------------
  // Seat reservation cancellation

  /** A cancellation that is not a replay: the new tables, the response and the pushes. */
  function Cancel(t: Tables, req: SeatReservationCancellationRequest, now: Seconds): (r: (Tables, SeatReservationCancellationResponse, seq<Push>))
    ensures r.1.id == req.id
    ensures r.1.status_code == 0 <==> Cancellable(t, req)
    ensures r.1.status_code != 0 ==> r.2 == [] && r.1.seats == 0 && r.0.reservations == t.reservations && r.0.callbacks == t.callbacks
  {
    if req.reservation_req_id !in t.reservations then
      (t, SeatReservationCancellationResponse(req.id, 1, ReservationNotFound, 0, 0), [])
    else
      var reservation := t.reservations[req.reservation_req_id];
      if reservation.identifier != req.identifier then
        (t, SeatReservationCancellationResponse(req.id, 2, IdentifierMismatch, 0, 0), [])
      else
        var flights := WithFlight(t.flights, req.identifier);
        var flight := flights[req.identifier];
        if req.seats > reservation.seats then
          (t.(flights := flights), SeatReservationCancellationResponse(req.id, 3, TooManySeatsToCancel, 0, 0), [])
        else
          var updated := flight.(seat_availability := Wrap32(flight.seat_availability + req.seats));
          var registered := Registrations(t.callbacks, req.identifier);
          (Tables(flights[req.identifier := updated],
                  t.callbacks[req.identifier := registered],
                  t.reservations[req.reservation_req_id := reservation.(seats := Wrap32(reservation.seats - req.seats))]),
           SeatReservationCancellationResponse(req.id, 0, [], req.identifier, req.seats),
           Pushes(registered, now, SeatAvailabilityCallbackRequest(0, updated.identifier, updated.seat_availability)))
  }

  /** Whether a cancellation names a known reservation of the same flight and no more seats than it holds. */
  predicate Cancellable(t: Tables, req: SeatReservationCancellationRequest)
  {
    && req.reservation_req_id in t.reservations
    && t.reservations[req.reservation_req_id].identifier == req.identifier
    && req.seats <= t.reservations[req.reservation_req_id].seats
  }

  /**
   * The three ways a cancellation is refused, checked in this order: an
   * unknown reservation (status 1), a flight other than the reserved one
   * (2) and more seats than reserved (3). A refusal changes nothing,
   * pushes nothing and reports no flight and no seats.
   */
  lemma CancellationRefused(t: Tables, req: SeatReservationCancellationRequest, now: Seconds)
    requires Valid(t)
    ensures req.reservation_req_id !in t.reservations ==>
      Cancel(t, req, now) == (t, SeatReservationCancellationResponse(req.id, 1, ReservationNotFound, 0, 0), [])
    ensures req.reservation_req_id in t.reservations && t.reservations[req.reservation_req_id].identifier != req.identifier ==>
      Cancel(t, req, now) == (t, SeatReservationCancellationResponse(req.id, 2, IdentifierMismatch, 0, 0), [])
    ensures req.reservation_req_id in t.reservations && t.reservations[req.reservation_req_id].identifier == req.identifier
            && req.seats > t.reservations[req.reservation_req_id].seats ==>
      Cancel(t, req, now) == (t, SeatReservationCancellationResponse(req.id, 3, TooManySeatsToCancel, 0, 0), [])
  {
  }

  /**
   * An accepted cancellation: the reservation loses and the flight regains
   * `seats` seats, every unexpired registration for the flight is pushed
   * the new count, and the tables stay valid.
   */
  lemma CancellationAccepted(t: Tables, req: SeatReservationCancellationRequest, now: Seconds)
    requires Valid(t) && Cancellable(t, req)
    ensures req.identifier in t.flights
    ensures var (t', res, pushes) := Cancel(t, req, now);
      var r := t.reservations[req.reservation_req_id];
      var f := t.flights[req.identifier];
      var available := Wrap32(f.seat_availability + req.seats);
      && res == SeatReservationCancellationResponse(req.id, 0, [], req.identifier, req.seats)
      && t'.reservations == t.reservations[req.reservation_req_id := r.(seats := Wrap32(r.seats - req.seats))]
      && t'.flights == t.flights[req.identifier := f.(seat_availability := available)]
      && (forall k :: Registrations(t'.callbacks, k) == Registrations(t.callbacks, k))
      && pushes == Pushes(Registrations(t.callbacks, req.identifier), now, SeatAvailabilityCallbackRequest(0, req.identifier, available))
      && Valid(t')
  {
  }

  /**
   * Cancelling all the seats of a reservation just made gives them back:
   * the flight table is as before the reservation, and the reservation is
   * left with no seats.
   */
  lemma ReserveThenCancelRestores(t: Tables, req: SeatReservationRequest, cancelId: u64, now: Seconds, later: Seconds)
    requires Valid(t) && req.id !in t.reservations
    requires req.identifier in t.flights && 0 <= req.seats <= t.flights[req.identifier].seat_availability
    ensures var t1 := Reserve(t, req, now).0;
      var (t2, res, _) := Cancel(t1, SeatReservationCancellationRequest(cancelId, req.id, req.identifier, req.seats), later);
      && res.status_code == 0
      && t2.flights == t.flights
      && t2.reservations == t.reservations[req.id := Reservation(req.identifier, 0)]
  {
    var t1 := Reserve(t, req, now).0;
    ReservationAccepted(t, req, now);
    var c := SeatReservationCancellationRequest(cancelId, req.id, req.identifier, req.seats);
    assert Cancellable(t1, c);
    CancellationAccepted(t1, c, later);
    var f := t.flights[req.identifier];
    assert t1.flights[req.identifier].seat_availability == f.seat_availability - req.seats;
    assert t1.flights[req.identifier].(seat_availability := f.seat_availability) == f;
  }

  // ---------------------------------------------------------------------
  // Dispatch

  /**
   * The server tries the decoders in a fixed order and serves the request
   * as the first kind whose decoder accepts the datagram; the cancellation
   * request is what its decoder, which this model does not include, made of
   * the same bytes.
   */
  function Classify(d: seq<byte>, cancel: Option<SeatReservationCancellationRequest>): (r: Option<Request>)
    ensures r.Some? && r.value.SearchRequest? ==> HasTag(d, FlightSearchRequestTag)
    ensures r.Some? && r.value.InfoRequest? ==> HasTag(d, FlightInfoRequestTag)
    ensures r.Some? && r.value.ReservationRequest? ==> HasTag(d, SeatReservationRequestTag)
    ensures r.Some? && r.value.MonitoringRequest? ==> HasTag(d, SeatAvailabilityMonitoringRequestTag)
    ensures r.Some? && r.value.PriceRangeRequest? ==> HasTag(d, PriceRangeSearchRequestTag)
    ensures r.None? ==> cancel.None?
  {
    var search := ParseFlightSearchRequest(d);
    if search.Ok() then Some(SearchRequest(search.value.value)) else
    var info := ParseFlightInfoRequest(d);
    if info.Ok() then Some(InfoRequest(info.value.value)) else
    var reservation := ParseSeatReservationRequest(d);
    if reservation.Ok() then Some(ReservationRequest(reservation.value.value)) else
    var monitoring := ParseSeatAvailabilityMonitoringRequest(d);
    if monitoring.Ok() then Some(MonitoringRequest(monitoring.value.value)) else
    var priceRange := ParsePriceRangeSearchRequest(d);
    if priceRange.Ok() then Some(PriceRangeRequest(priceRange.value.value)) else
    if cancel.Some? then Some(CancellationRequest(cancel.value)) else None
  }

  /** Whether the request's id is in its kind's history. */
  predicate Known(h: History, request: Request)
  {
    match request
    case SearchRequest(q) => q.id in h.search
    case InfoRequest(q) => I64AsU64(q.id) in h.info
    case ReservationRequest(q) => q.id in h.reservation
    case MonitoringRequest(q) => q.id in h.monitoring
    case PriceRangeRequest(q) => q.id in h.priceRange
    case CancellationRequest(q) => q.id in h.cancellation
  }

  /** The response stored for a known request. */
  function Stored(h: History, request: Request): Reply
    requires Known(h, request)
  {
    match request
    case SearchRequest(q) => SearchReply(h.search[q.id].1)
    case InfoRequest(q) => InfoReply(h.info[I64AsU64(q.id)].1)
    case ReservationRequest(q) => ReservationReply(h.reservation[q.id].1)
    case MonitoringRequest(q) => MonitoringReply(h.monitoring[q.id].1)
    case PriceRangeRequest(q) => PriceRangeReply(h.priceRange[q.id].1)
    case CancellationRequest(q) => CancellationReply(h.cancellation[q.id].1)
  }

  /** The reply unless the response-loss draw drops it. */
  function Deliver(reply: Reply, loss: LossDraw): Option<Reply>
  {
    if loss.responseLost then None else Some(reply)
  }

  /** Whether a reply is of the kind that answers the request. */
  predicate Answers(request: Request, reply: Reply)
  {
    match request
    case SearchRequest(_) => reply.SearchReply?
    case InfoRequest(_) => reply.InfoReply?
    case ReservationRequest(_) => reply.ReservationReply?
    case MonitoringRequest(_) => reply.MonitoringReply?
    case PriceRangeRequest(_) => reply.PriceRangeReply?
    case CancellationRequest(_) => reply.CancellationReply?
  }

  /** The work a request that is neither lost nor a replay does: the new tables, the response and the pushes. */
  function Compute(t: Tables, request: Request, from: SocketAddress, now: Seconds, select: PriceRangeSelection): (r: (Tables, Reply, seq<Push>))
    ensures Answers(request, r.1)
  {
    match request
    case SearchRequest(q) => (t, SearchReply(SearchResponse(t.flights, q)), [])
    case InfoRequest(q) => (t, InfoReply(InfoResponse(t.flights, q)), [])
    case ReservationRequest(q) =>
      var (t', res, pushes) := Reserve(t, q, now);
      (t', ReservationReply(res), pushes)
    case MonitoringRequest(q) =>
      var (t', res) := Monitor(t, q, from, now);
      (t', MonitoringReply(res), [])
    case PriceRangeRequest(q) => (t, PriceRangeReply(PriceRangeResponse(t.flights, q, select)), [])
    case CancellationRequest(q) =>
      var (t', res, pushes) := Cancel(t, q, now);
      (t', CancellationReply(res), pushes)
  }

  /** Files the response under the request's id in its kind's history. */
  function Record(h: History, request: Request, reply: Reply): (r: History)
    ensures forall x :: Known(h, x) ==> Known(r, x)
    ensures !Answers(request, reply) ==> r == h
  {
    match request
    case SearchRequest(q) =>
      if reply.SearchReply? then h.(search := h.search[q.id := (q, reply.searchResponse)]) else h
    case InfoRequest(q) =>
      if reply.InfoReply? then h.(info := h.info[I64AsU64(q.id) := (q, reply.infoResponse)]) else h
    case ReservationRequest(q) =>
      if reply.ReservationReply? then h.(reservation := h.reservation[q.id := (q, reply.reservationResponse)]) else h
    case MonitoringRequest(q) =>
      if reply.MonitoringReply? then h.(monitoring := h.monitoring[q.id := (q, reply.monitoringResponse)]) else h
    case PriceRangeRequest(q) =>
      if reply.PriceRangeReply? then h.(priceRange := h.priceRange[q.id := (q, reply.priceRangeResponse)]) else h
    case CancellationRequest(q) =>
      if reply.CancellationReply? then h.(cancellation := h.cancellation[q.id := (q, reply.cancellationResponse)]) else h
  }

  /** Serving a request that is neither lost nor a replay: compute, record under at-most-once, then apply the response-loss draw. */
  function Answer(s: State, request: Request, semantic: InvocationSemantic, from: SocketAddress, loss: LossDraw,
                  now: Seconds, select: PriceRangeSelection): (r: Outcome)
    ensures r.reply.Some? <==> !loss.responseLost
    ensures r.reply.Some? ==> Answers(request, r.reply.value)
    ensures semantic == AtLeastOnce ==> r.state.history == s.history
  {
    var (t, reply, pushes) := Compute(s.tables, request, from, now, select);
    var h := if semantic == AtMostOnce then Record(s.history, request, reply) else s.history;
    Outcome(State(t, h), Deliver(reply, loss), pushes)
  }

  /** One classified request: dropped if request-lost, replayed if known under at-most-once, answered otherwise. */
  function Handle(s: State, request: Request, semantic: InvocationSemantic, from: SocketAddress, loss: LossDraw,
                  now: Seconds, select: PriceRangeSelection): (r: Outcome)
    ensures loss.requestLost ==> r == Outcome(s, None, [])
    ensures r.reply.Some? ==> Answers(request, r.reply.value)
    ensures semantic == AtLeastOnce ==> r.state.history == s.history
  {
    if loss.requestLost then Outcome(s, None, [])
    else if semantic == AtMostOnce && Known(s.history, request) then Outcome(s, Deliver(Stored(s.history, request), loss), [])
    else Answer(s, request, semantic, from, loss, now, select)
  }

  /** One call of the handler: a receive outcome in, the new state, the optional reply and the pushes out. */
  function Step(s: State, semantic: InvocationSemantic, from: SocketAddress, received: Received,
                cancel: Option<SeatReservationCancellationRequest>, loss: LossDraw, now: Seconds,
                select: PriceRangeSelection): (r: Outcome)
    ensures received.RecvError? ==> r == Outcome(s, None, [])
    ensures r.reply.Some? ==>
      received.Datagram? && Classify(received.bytes, cancel).Some? && Answers(Classify(received.bytes, cancel).value, r.reply.value)
    ensures semantic == AtLeastOnce ==> r.state.history == s.history
  {
    match received
    case RecvError => Outcome(s, None, [])
    case Datagram(d) =>
      match Classify(d, cancel)
      case None => Outcome(s, None, [])
      case Some(request) => Handle(s, request, semantic, from, loss, now, select)
  }

  // ---------------------------------------------------------------------
  // Properties of the handler

  lemma ReserveKeepsValid(t: Tables, q: SeatReservationRequest, now: Seconds)
    requires Valid(t)
    ensures Valid(Reserve(t, q, now).0)
  {
    ReservationRefused(t, q, now);
    if q.identifier in t.flights && q.seats <= t.flights[q.identifier].seat_availability {
      ReservationAccepted(t, q, now);
    }
  }

  lemma CancelKeepsValid(t: Tables, q: SeatReservationCancellationRequest, now: Seconds)
    requires Valid(t)
    ensures Valid(Cancel(t, q, now).0)
  {
    CancellationRefused(t, q, now);
    if Cancellable(t, q) {
      CancellationAccepted(t, q, now);
    }
  }

  /** Serving a request keeps the tables valid. */
  lemma ComputeKeepsValid(t: Tables, request: Request, from: SocketAddress, now: Seconds, select: PriceRangeSelection)
    requires Valid(t)
    ensures Valid(Compute(t, request, from, now, select).0)
  {
    match request
    case ReservationRequest(q) => ReserveKeepsValid(t, q, now);
    case CancellationRequest(q) => CancelKeepsValid(t, q, now);
    case _ =>
  }

  /** Recording a response of the right kind makes the request known, with that response stored. */
  lemma RecordStores(h: History, request: Request, reply: Reply)
    requires Answers(request, reply)
    ensures Known(Record(h, request, reply), request) && Stored(Record(h, request, reply), request) == reply
  {
  }

  /** Every state the handler reaches from one with valid tables has valid tables. */
  lemma StepKeepsValid(s: State, semantic: InvocationSemantic, from: SocketAddress, received: Received,
                       cancel: Option<SeatReservationCancellationRequest>, loss: LossDraw, now: Seconds,
                       select: PriceRangeSelection)
    requires Valid(s.tables)
    ensures Valid(Step(s, semantic, from, received, cancel, loss, now, select).state.tables)
  {
    if received.Datagram? {
      var request := Classify(received.bytes, cancel);
      if request.Some? {
        ComputeKeepsValid(s.tables, request.value, from, now, select);
      }
    }
  }

  /**
   * A failed receive, a datagram no decoder accepts, and a request-loss
   * draw all leave the state alone and produce no reply and no push.
   */
  lemma NothingServed(s: State, semantic: InvocationSemantic, from: SocketAddress, received: Received,
                      cancel: Option<SeatReservationCancellationRequest>, loss: LossDraw, now: Seconds,
                      select: PriceRangeSelection)
    requires received.RecvError? || Classify(received.bytes, cancel).None? || loss.requestLost
    ensures Step(s, semantic, from, received, cancel, loss, now, select) == Outcome(s, None, [])
  {
  }

  /**
   * At-most-once: a request whose id is in its kind's history gets the
   * stored response (unless the response is lost) and changes nothing.
   */
  lemma AtMostOnceReplays(s: State, request: Request, from: SocketAddress, loss: LossDraw, now: Seconds,
                          select: PriceRangeSelection)
    requires !loss.requestLost && Known(s.history, request)
    ensures Handle(s, request, AtMostOnce, from, loss, now, select) == Outcome(s, Deliver(Stored(s.history, request), loss), [])
  {
  }

  /**
   * At-most-once: a new request's response is recorded before the
   * response-loss draw is consulted, so even a dropped response is stored,
   * and what is stored is what was (or would have been) sent.
   */
  lemma AtMostOnceRecords(s: State, request: Request, from: SocketAddress, loss: LossDraw, now: Seconds,
                          select: PriceRangeSelection)
    requires !loss.requestLost && !Known(s.history, request)
    ensures var o := Handle(s, request, AtMostOnce, from, loss, now, select);
      Known(o.state.history, request) && o.reply == Deliver(Stored(o.state.history, request), loss)
  {
    RecordStores(s.history, request, Compute(s.tables, request, from, now, select).1);
  }


  /** At-least-once: no history is ever written. */
  lemma AtLeastOnceKeepsNoHistory(s: State, request: Request, from: SocketAddress, loss: LossDraw, now: Seconds,
                                  select: PriceRangeSelection)
    ensures Handle(s, request, AtLeastOnce, from, loss, now, select).state.history == s.history
  {
  }

  /**
   * At-least-once: no history is ever read either. Two states with the same
   * tables get the same reply, the same pushes and the same new tables,
   * whatever their histories hold.
   */
  lemma AtLeastOnceIgnoresHistory(s1: State, s2: State, request: Request, from: SocketAddress, loss: LossDraw,
                                  now: Seconds, select: PriceRangeSelection)
    requires s1.tables == s2.tables
    ensures var o1 := Handle(s1, request, AtLeastOnce, from, loss, now, select);
      var o2 := Handle(s2, request, AtLeastOnce, from, loss, now, select);
      o1.reply == o2.reply && o1.pushes == o2.pushes && o1.state.tables == o2.state.tables
  {
  }


  /**
   * At-most-once: a retransmission that is not lost on the way in has no
   * further effect, and is answered with the response the first delivery
   * computed.
   */
  lemma RetransmissionHasNoEffect(s: State, request: Request, from: SocketAddress, loss1: LossDraw, loss2: LossDraw,
                                  now1: Seconds, now2: Seconds, select: PriceRangeSelection)
    requires !loss1.requestLost && !loss2.requestLost
    ensures var o1 := Handle(s, request, AtMostOnce, from, loss1, now1, select);
      var o2 := Handle(o1.state, request, AtMostOnce, from, loss2, now2, select);
      && Known(o1.state.history, request)
      && o2 == Outcome(o1.state, Deliver(Stored(o1.state.history, request), loss2), [])
      && (o1.reply.Some? ==> o1.reply.value == Stored(o1.state.history, request))
  {
    var o1 := Handle(s, request, AtMostOnce, from, loss1, now1, select);
    if Known(s.history, request) {
      AtMostOnceReplays(s, request, from, loss1, now1, select);
    } else {
      AtMostOnceRecords(s, request, from, loss1, now1, select);
    }
    AtMostOnceReplays(o1.state, request, from, loss2, now2, select);
  }

  /**
   * At-least-once: a retransmitted reservation is carried out again, so
   * the flight loses its seats twice.
   */
  lemma AtLeastOnceReservesTwice(s: State, q: SeatReservationRequest, from: SocketAddress, loss1: LossDraw, loss2: LossDraw,
                                 now1: Seconds, now2: Seconds, select: PriceRangeSelection)
    requires Valid(s.tables) && !loss1.requestLost && !loss2.requestLost
    requires q.identifier in s.tables.flights && 0 <= q.seats && 2 * q.seats <= s.tables.flights[q.identifier].seat_availability
    ensures var o1 := Handle(s, ReservationRequest(q), AtLeastOnce, from, loss1, now1, select);
      var o2 := Handle(o1.state, ReservationRequest(q), AtLeastOnce, from, loss2, now2, select);
      o2.state.tables.flights[q.identifier].seat_availability == s.tables.flights[q.identifier].seat_availability - 2 * q.seats
  {
    var t1 := Reserve(s.tables, q, now1).0;
    ReservationAccepted(s.tables, q, now1);
    ReservationAccepted(t1, q, now2);
  }


  /** The flight-information request carries no id on the wire, so every decoded one has id 0. */
  lemma InfoRequestIdIsZero(d: seq<byte>, cancel: Option<SeatReservationCancellationRequest>)
    requires Classify(d, cancel).Some? && Classify(d, cancel).value.InfoRequest?
    ensures Classify(d, cancel).value.info.id == 0
  {
  }

  /**
   * Consequently, at-most-once, once one flight-information request has
   * been answered every later one, whatever flight it asks about, is
   * answered with that first response.
   */
  lemma InfoRepliesAreStale(s: State, d: seq<byte>, cancel: Option<SeatReservationCancellationRequest>, from: SocketAddress,
                            loss: LossDraw, now: Seconds, select: PriceRangeSelection)
    requires Classify(d, cancel).Some? && Classify(d, cancel).value.InfoRequest?
    requires !loss.requestLost && 0 in s.history.info
    ensures Step(s, AtMostOnce, from, Datagram(d), cancel, loss, now, select)
      == Outcome(s, Deliver(InfoReply(s.history.info[0].1), loss), [])
  {
    InfoRequestIdIsZero(d, cancel);
    assert I64AsU64(0) == 0;
  }

  /**
   * A monitoring request that is neither lost nor a replay, for a known
   * flight, appends one registration for that flight: the sender's
   * address with the request's port, expiring `monitor_interval_sec`
   * seconds from now, which is also the end time the response reports.
   * For an unknown flight nothing is registered and the status is 1.
   */
  lemma MonitoringRegisters(s: State, q: SeatAvailabilityMonitoringRequest, semantic: InvocationSemantic, from: SocketAddress,
                            loss: LossDraw, now: Seconds, select: PriceRangeSelection)
    requires !loss.requestLost && !(semantic == AtMostOnce && q.id in s.history.monitoring)
    ensures var o := Handle(s, MonitoringRequest(q), semantic, from, loss, now, select);
      var t := s.tables;
      var res := Monitor(t, q, from, now).1;
      && o.reply == Deliver(MonitoringReply(res), loss)
      && o.state.tables.flights == t.flights && o.state.tables.reservations == t.reservations
      && (q.identifier in t.flights ==>
            && res.status_code == 0 && res.monitor_end == now + q.monitor_interval_sec
            && o.state.tables.callbacks == t.callbacks[q.identifier := Registrations(t.callbacks, q.identifier)
                 + [Callback(SocketAddress(from.protocol, from.address, q.port), now + q.monitor_interval_sec)]])
      && (q.identifier !in t.flights ==> res.status_code == 1 && o.state.tables.callbacks == t.callbacks)
  {
  }


  /**
   * The monitoring request carries no port on the wire, so every decoded
   * one asks for pushes to port 0 of the sender.
   */
  lemma MonitoringPortIsZero(d: seq<byte>, cancel: Option<SeatReservationCancellationRequest>)
    requires Classify(d, cancel).Some? && Classify(d, cancel).value.MonitoringRequest?
    ensures Classify(d, cancel).value.monitoring.port == 0
  {
  }

  /**
   * A price-range request is served as a flight search exactly when both
   * of its bounds are +0.0; otherwise it is served as a price-range search.
   */
  lemma PriceRangeMisrouted(m: PriceRangeSearchRequest, cancel: Option<SeatReservationCancellationRequest>)
    ensures var d := PriceRangeSearchRequestBytes(m);
      Classify(d, cancel) ==
        if m.from == PositiveZero && m.to == PositiveZero then Some(SearchRequest(FlightSearchRequest(m.id, [], [])))
        else Some(PriceRangeRequest(m))
  {
    var d := PriceRangeSearchRequestBytes(m);
    PriceRangeReadAsFlightSearch(m);
    assert d[..4] == I32Bytes(PriceRangeSearchRequestTag);
    InfoDecodersCheckTag(d, PriceRangeSearchRequestTag);
    ReservationDecodersCheckTag(d, PriceRangeSearchRequestTag);
    AvailabilityDecodersCheckTag(d, PriceRangeSearchRequestTag);
    PriceRangeSearchRequestRoundTrip(m, []);
    assert d + [] == d;
  }

  /** A flight-search request reaches the search branch intact. */
  lemma SearchDispatched(q: FlightSearchRequest, cancel: Option<SeatReservationCancellationRequest>)
    requires ValidFlightSearchRequest(q)
    ensures Classify(FlightSearchRequestBytes(q), cancel) == Some(SearchRequest(q))
  {
    var d := FlightSearchRequestBytes(q);
    FlightSearchRequestRoundTrip(q, []);
    assert d + [] == d;
  }

  /** A flight-information request reaches the information branch, with its id read as 0. */
  lemma InfoDispatched(q: FlightInfoRequest, cancel: Option<SeatReservationCancellationRequest>)
    ensures Classify(FlightInfoRequestBytes(q), cancel) == Some(InfoRequest(q.(id := 0)))
  {
    var d := FlightInfoRequestBytes(q);
    assert d[..4] == I32Bytes(FlightInfoRequestTag);
    SearchDecodersCheckTag(d, FlightInfoRequestTag);
    FlightInfoRequestRoundTrip(q, []);
    assert d + [] == d;
  }

  /** A seat-reservation request reaches the reservation branch intact. */
  lemma ReservationDispatched(q: SeatReservationRequest, cancel: Option<SeatReservationCancellationRequest>)
    ensures Classify(SeatReservationRequestBytes(q), cancel) == Some(ReservationRequest(q))
  {
    var d := SeatReservationRequestBytes(q);
    assert d[..4] == I32Bytes(SeatReservationRequestTag);
    SearchDecodersCheckTag(d, SeatReservationRequestTag);
    InfoDecodersCheckTag(d, SeatReservationRequestTag);
    SeatReservationRequestRoundTrip(q, []);
    assert d + [] == d;
  }

  /** A monitoring request reaches the monitoring branch, with its port read as 0. */
  lemma MonitoringDispatched(q: SeatAvailabilityMonitoringRequest, cancel: Option<SeatReservationCancellationRequest>)
    ensures Classify(SeatAvailabilityMonitoringRequestBytes(q), cancel) == Some(MonitoringRequest(q.(port := 0)))
  {
    var d := SeatAvailabilityMonitoringRequestBytes(q);
    assert d[..4] == I32Bytes(SeatAvailabilityMonitoringRequestTag);
    SearchDecodersCheckTag(d, SeatAvailabilityMonitoringRequestTag);
    InfoDecodersCheckTag(d, SeatAvailabilityMonitoringRequestTag);
    ReservationDecodersCheckTag(d, SeatAvailabilityMonitoringRequestTag);
    SeatAvailabilityMonitoringRequestRoundTrip(q, []);
    assert d + [] == d;
  }
}
