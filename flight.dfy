/**
 * The flight record and its codec. A flight is embedded in other messages
 * and so carries no type tag: it is encoded as identifier (i32), source and
 * destination (strings), departure time (i64), airfare (f32) and seat
 * availability (i32), in that order. Lists of flights use the serialization
 * library's vector codec: a 4-byte element count, then each flight.
 */
module Flights {
  import opened Wire

  datatype Flight = Flight(
    identifier: i32,
    source: seq<byte>,
    destination: seq<byte>,
    departure_time: i64,
    airfare: f32,
    seat_availability: i32)

  /** A flight whose strings are short enough for their 4-byte length prefix. */
  predicate ValidFlight(f: Flight)
  {
    |f.source| < 0x1_0000_0000 && |f.destination| < 0x1_0000_0000
  }

  predicate ValidFlights(fs: seq<Flight>)
  {
    |fs| < 0x1_0000_0000 && forall i :: 0 <= i < |fs| ==> ValidFlight(fs[i])
  }

  /**
   * `Flight::operator==`: field-by-field equality, with the airfare compared
   * as a float. So it is equality of flight values, except that a flight
   * whose airfare is a NaN equals no flight (itself included), and two
   * flights that differ only in the sign of a zero airfare are equal.
   */
  predicate FlightEquals(a: Flight, b: Flight)
    ensures !F32IsNaN(a.airfare) && !F32IsZero(a.airfare) ==> (FlightEquals(a, b) <==> a == b)
    ensures F32IsNaN(a.airfare) || F32IsNaN(b.airfare) ==> !FlightEquals(a, b)
    ensures F32IsZero(a.airfare) && F32IsZero(b.airfare) ==> (FlightEquals(a, b) <==> a.(airfare := b.airfare) == b)
  {
    && a.identifier == b.identifier
    && a.source == b.source
    && a.destination == b.destination
    && a.departure_time == b.departure_time
    && F32Equal(a.airfare, b.airfare)
    && a.seat_availability == b.seat_availability
  }

  /** The two ways `operator==` differs from equality of values. */
  lemma FlightEqualsNotIdentity(f: Flight)
    ensures var nan := f.(airfare := [0, 0, 192, 127]);
      !FlightEquals(nan, nan)
    ensures FlightEquals(f.(airfare := PositiveZero), f.(airfare := [0, 0, 0, 128]))
    ensures f.(airfare := PositiveZero) != f.(airfare := [0, 0, 0, 128])
  {
    var nan := f.(airfare := [0, 0, 192, 127]);
    assert F32IsNaN(nan.airfare);
    var negativeZero: f32 := [0, 0, 0, 128];
    assert F32IsZero(PositiveZero) && F32IsZero(negativeZero);
    assert PositiveZero[3] != negativeZero[3];
  }

  // ---------------------------------------------------------------------
  // Encoding

  /** The layout `Marshal<Flight>` produces. */
  function FlightBytes(f: Flight): (b: seq<byte>)
    ensures |b| == 4 + (4 + |f.source|) + (4 + |f.destination|) + 8 + 4 + 4
  {
    I32Bytes(f.identifier) + StrBytes(f.source) + StrBytes(f.destination)
    + I64Bytes(f.departure_time) + f.airfare + I32Bytes(f.seat_availability)
  }

  method MarshalFlight(f: Flight) returns (data: seq<byte>)
    ensures data == FlightBytes(f)
  {
    data := [];
    data := data + I32Bytes(f.identifier);
    data := data + StrBytes(f.source);
    data := data + StrBytes(f.destination);
    data := data + I64Bytes(f.departure_time);
    data := data + f.airfare;
    data := data + I32Bytes(f.seat_availability);
  }

  // ---------------------------------------------------------------------
  // Decoding

  /** `Unmarshal<Flight>`: walk a cursor through the buffer, bounds-checking every read. */
  function ParseFlight(d: seq<byte>): (r: Decoded<Flight>)
    ensures r.consumed <= |d|
    ensures !r.Ok() ==> r == Fail()
  {
    if 4 > |d| then Fail() else
    var identifier := I32At(d, 0);
    var p1 := 4;
    var sourceRes := ParseStr(d[p1..]);
    if !sourceRes.Ok() then Fail() else
    var p2 := p1 + sourceRes.consumed;
    var destinationRes := ParseStr(d[p2..]);
    if !destinationRes.Ok() then Fail() else
    var p3 := p2 + destinationRes.consumed;
    if p3 + 8 > |d| then Fail() else
    var departureTime := I64At(d, p3);
    var p4 := p3 + 8;
    if p4 + 4 > |d| then Fail() else
    var airfare := F32At(d, p4);
    var p5 := p4 + 4;
    if p5 + 4 > |d| then Fail() else
    var seatAvailability := I32At(d, p5);
    var p6 := p5 + 4;
    Decoded(p6, Some(Flight(identifier, sourceRes.value.value, destinationRes.value.value,
                            departureTime, airfare, seatAvailability)))
  }

  method UnmarshalFlight(data: seq<byte>) returns (consumed: nat, flight: Option<Flight>)
    ensures Decoded(consumed, flight) == ParseFlight(data)
  {
    var p := 0;
    if p + 4 > |data| {
      return 0, None;
    }
    var identifier := I32At(data, p);
    p := p + 4;

    var sourceRes := ParseStr(data[p..]);
    if !sourceRes.Ok() {
      return 0, None;
    }
    p := p + sourceRes.consumed;
    var source := sourceRes.value.value;

    var destinationRes := ParseStr(data[p..]);
    if !destinationRes.Ok() {
      return 0, None;
    }
    p := p + destinationRes.consumed;
    var destination := destinationRes.value.value;

    if p + 8 > |data| {
      return 0, None;
    }
    var departureTime := I64At(data, p);
    p := p + 8;

    if p + 4 > |data| {
      return 0, None;
    }
    var airfare := F32At(data, p);
    p := p + 4;

    if p + 4 > |data| {
      return 0, None;
    }
    var seatAvailability := I32At(data, p);
    p := p + 4;

    return p, Some(Flight(identifier, source, destination, departureTime, airfare, seatAvailability));
  }

  // ---------------------------------------------------------------------
  // Properties of the flight codec

  /**
   * Decoding a buffer that agrees with a flight's encoding (the encoding
   * followed by anything, or the encoding cut short) recovers the flight and
   * consumes exactly its encoding when the whole encoding is present, and
   * fails with `(0, none)` otherwise.
   */
  lemma ParseFlightAgree(d: seq<byte>, f: Flight)
    requires ValidFlight(f) && Agree(d, FlightBytes(f))
    ensures ParseFlight(d) == if |FlightBytes(f)| <= |d| then Decoded(|FlightBytes(f)|, Some(f)) else Fail()
  {
    var e0 := I32Bytes(f.identifier);
    var e1 := e0 + StrBytes(f.source);
    var e2 := e1 + StrBytes(f.destination);
    var e3 := e2 + I64Bytes(f.departure_time);
    var e4 := e3 + f.airfare;
    AgreeSplit(d, e4, I32Bytes(f.seat_availability));
    AgreeSplit(d, e3, f.airfare);
    AgreeSplit(d, e2, I64Bytes(f.departure_time));
    AgreeSplit(d, e1, StrBytes(f.destination));
    AgreeSplit(d, e0, StrBytes(f.source));
    if |d| < 4 {
      return;
    }
    DropNothing(d);
    ReadI32(d, 0, f.identifier);
    ParseStrAgree(d[|e0|..], f.source);
    if |d| < |e1| {
      return;
    }
    ParseStrAgree(d[|e1|..], f.destination);
    if |d| < |e2| {
      return;
    }
    if |e3| <= |d| {
      ReadI64(d, |e2|, f.departure_time);
    }
    if |e4| <= |d| {
      ReadF32(d, |e3|, f.airfare);
    }
    if |e4| + 4 <= |d| {
      ReadI32(d, |e4|, f.seat_availability);
    }
  }

  /** Decoding the encoding of any flight, followed by anything, yields that flight and stops where it ends. */
  lemma FlightRoundTrip(f: Flight, rest: seq<byte>)
    requires ValidFlight(f)
    ensures ParseFlight(FlightBytes(f) + rest) == Decoded(|FlightBytes(f)|, Some(f))
  {
    AgreeExtended(FlightBytes(f), rest);
    ParseFlightAgree(FlightBytes(f) + rest, f);
  }

  /** Every proper prefix of a flight's encoding fails to decode. */
  lemma FlightTruncated(f: Flight, k: nat)
    requires ValidFlight(f) && k < |FlightBytes(f)|
    ensures ParseFlight(FlightBytes(f)[..k]) == Fail()
  {
    AgreeTruncated(FlightBytes(f), k);
    ParseFlightAgree(FlightBytes(f)[..k], f);
  }

  /**
   * What the decoder accepts is exactly the encoding of the flight it
   * returns: the consumed count marks where that encoding ends, and the
   * bytes after it play no part.
   */
  lemma ParseFlightSound(d: seq<byte>)
    requires ParseFlight(d).Ok()
    ensures var r := ParseFlight(d);
      ValidFlight(r.value.value) && d[..r.consumed] == FlightBytes(r.value.value)
  {
    var r := ParseFlight(d);
    var f := r.value.value;
    var b := 4 + ParseStr(d[4..]).consumed;
    var c := b + ParseStr(d[b..]).consumed;
    I32Back(d, 0);
    assert d[..4] == d[0..4];
    StrBack(d, 4);
    PrefixJoin(d, 4, b, I32Bytes(f.identifier), StrBytes(f.source));
    StrBack(d, b);
    PrefixJoin(d, b, c, I32Bytes(f.identifier) + StrBytes(f.source), StrBytes(f.destination));
    I64Back(d, c);
    PrefixJoin(d, c, c + 8, I32Bytes(f.identifier) + StrBytes(f.source) + StrBytes(f.destination),
               I64Bytes(f.departure_time));
    PrefixJoin(d, c + 8, c + 12, I32Bytes(f.identifier) + StrBytes(f.source) + StrBytes(f.destination)
               + I64Bytes(f.departure_time), f.airfare);
    I32Back(d, c + 12);
    PrefixJoin(d, c + 12, c + 16, I32Bytes(f.identifier) + StrBytes(f.source) + StrBytes(f.destination)
               + I64Bytes(f.departure_time) + f.airfare, I32Bytes(f.seat_availability));
  }

  // ---------------------------------------------------------------------
  // Lists of flights (the vector codec applied to flights)

  /** `Marshal<std::vector<Flight>>`. */
  function FlightListBytes(fs: seq<Flight>): (b: seq<byte>)
  {
    VectorBytes(FlightBytes, fs)
  }

  /** `Unmarshal<std::vector<Flight>>`. */
  function ParseFlightList(d: seq<byte>): (r: Decoded<seq<Flight>>)
    ensures r.consumed <= |d|
    ensures !r.Ok() ==> r == Fail()
  {
    ParseVector(ParseFlight, d)
  }

  /** Every valid flight's decoding from a buffer that agrees with its encoding, as one quantified fact. */
  lemma ParseFlightAgreeAll()
    ensures forall x, f {:trigger Agree(x, FlightBytes(f))} :: ValidFlight(f) && Agree(x, FlightBytes(f)) ==>
      ParseFlight(x) == if |FlightBytes(f)| <= |x| then Decoded(|FlightBytes(f)|, Some(f)) else Fail()
  {
    forall x, f | ValidFlight(f) && Agree(x, FlightBytes(f))
      ensures ParseFlight(x) == if |FlightBytes(f)| <= |x| then Decoded(|FlightBytes(f)|, Some(f)) else Fail()
    {
      ParseFlightAgree(x, f);
    }
  }

  /** The flight codec, as an element codec of the vector codec, is exact and sound. */
  lemma FlightCodecExact()
    ensures ExactFor(ParseFlight, FlightBytes, ValidFlight)
  {
    ParseFlightAgreeAll();
  }

  lemma FlightCodecSound()
    ensures SoundFor(ParseFlight, FlightBytes, ValidFlight)
  {
    forall x | ParseFlight(x).Ok()
      ensures ParseFlight(x).consumed <= |x| && ValidFlight(ParseFlight(x).value.value)
      ensures x[..ParseFlight(x).consumed] == FlightBytes(ParseFlight(x).value.value)
    {
      ParseFlightSound(x);
    }
  }

  /** The flight-list decoder recovers any valid list from a buffer that agrees with its encoding. */
  lemma ParseFlightListAgree(d: seq<byte>, fs: seq<Flight>)
    requires ValidFlights(fs) && Agree(d, FlightListBytes(fs))
    ensures ParseFlightList(d) ==
      if |FlightListBytes(fs)| <= |d| then Decoded(|FlightListBytes(fs)|, Some(fs)) else Fail()
  {
    FlightCodecExact();
    ParseVectorAgree(ParseFlight, FlightBytes, ValidFlight, d, fs);
  }

  /** What the flight-list decoder accepts is exactly the encoding of the list it returns. */
  lemma ParseFlightListSound(d: seq<byte>)
    requires ParseFlightList(d).Ok()
    ensures var r := ParseFlightList(d);
      ValidFlights(r.value.value) && d[..r.consumed] == FlightListBytes(r.value.value)
  {
    FlightCodecSound();
    ParseVectorSound(ParseFlight, FlightBytes, ValidFlight, d);
  }

  /** The flight-list decoder run at cursor `p` accepted exactly the encoding of the list it returned. */
  lemma FlightListBack(d: seq<byte>, p: nat)
    requires p <= |d| && ParseFlightList(d[p..]).Ok()
    ensures var r := ParseFlightList(d[p..]);
      p + r.consumed <= |d| && ValidFlights(r.value.value) && d[p..p + r.consumed] == FlightListBytes(r.value.value)
  {
    ParseFlightListSound(d[p..]);
    DropTake(d, p, ParseFlightList(d[p..]).consumed);
  }

  /** Extends a decoded prefix `x` of `d` by the flight list decoded at its end. */
  lemma FlightListJoin(d: seq<byte>, p: nat, x: seq<byte>)
    requires p <= |d| && d[..p] == x && ParseFlightList(d[p..]).Ok()
    ensures var r := ParseFlightList(d[p..]);
      p + r.consumed <= |d| && ValidFlights(r.value.value) && d[..p + r.consumed] == x + FlightListBytes(r.value.value)
  {
    FlightListBack(d, p);
    PrefixJoin(d, p, p + ParseFlightList(d[p..]).consumed, x, FlightListBytes(ParseFlightList(d[p..]).value.value));
  }
}
