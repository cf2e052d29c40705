/**
 * The flight-search messages and the price-range search messages that share
 * their tags (1 for requests, 2 for responses). Every decoder checks the
 * buffer holds a 4-byte tag and that it is its own, then reads the fields in
 * order, failing with `(0, none)` as soon as a field does not fit.
 */
module FlightSearch {
  import opened Wire
  import opened MessageType
  import opened Flights

  // ---------------------------------------------------------------------
  // FlightSearchRequest

  /** A search for the flights from `source` to `destination`. */
  datatype FlightSearchRequest = FlightSearchRequest(
    id: u64,
    source: seq<byte>,
    destination: seq<byte>)

  /** Strings and lists short enough for their 4-byte length prefix. */
  predicate ValidFlightSearchRequest(m: FlightSearchRequest)
  {
    |m.source| < 0x1_0000_0000 && |m.destination| < 0x1_0000_0000
  }

  function FlightSearchRequestBytes(m: FlightSearchRequest): (b: seq<byte>)
    ensures |b| == 4 + 8 + (4 + |m.source|) + (4 + |m.destination|)
  {
    I32Bytes(FlightSearchRequestTag)
    + U64Bytes(m.id)
    + StrBytes(m.source)
    + StrBytes(m.destination)
  }

  method MarshalFlightSearchRequest(m: FlightSearchRequest) returns (data: seq<byte>)
    ensures data == FlightSearchRequestBytes(m)
  {
    data := I32Bytes(FlightSearchRequestTag);
    data := data + U64Bytes(m.id);
    data := data + StrBytes(m.source);
    data := data + StrBytes(m.destination);
  }

  function ParseFlightSearchRequest(d: seq<byte>): (r: Decoded<FlightSearchRequest>)
    ensures r.consumed <= |d|
    ensures r.Ok() ==> HasTag(d, FlightSearchRequestTag)
    ensures !r.Ok() ==> r == Fail()
  {
    if |d| < 4 then Fail() else
    if I32At(d, 0) != FlightSearchRequestTag then Fail() else
    var p0 := 4;
    if p0 + 8 > |d| then Fail() else
    var id := U64At(d, p0);
    var p1 := p0 + 8;
    var sourceRes := ParseStr(d[p1..]);
    if !sourceRes.Ok() then Fail() else
    var p2 := p1 + sourceRes.consumed;
    var destinationRes := ParseStr(d[p2..]);
    if !destinationRes.Ok() then Fail() else
    var p3 := p2 + destinationRes.consumed;
    Decoded(p3, Some(FlightSearchRequest(id, sourceRes.value.value, destinationRes.value.value)))
  }

  method UnmarshalFlightSearchRequest(data: seq<byte>) returns (consumed: nat, request: Option<FlightSearchRequest>)
    ensures Decoded(consumed, request) == ParseFlightSearchRequest(data)
  {
    if |data| < 4 {
      return 0, None;
    }
    var messageType := I32At(data, 0);
    if messageType != FlightSearchRequestTag {
      return 0, None;
    }

    var p := 4;

    if p + 8 > |data| {
      return 0, None;
    }
    var id := U64At(data, p);
    p := p + 8;

    var sourceRes := ParseStr(data[p..]);
    if !sourceRes.Ok() {
      return 0, None;
    }
    var source := sourceRes.value.value;
    p := p + sourceRes.consumed;

    var destinationRes := ParseStr(data[p..]);
    if !destinationRes.Ok() {
      return 0, None;
    }
    var destination := destinationRes.value.value;
    p := p + destinationRes.consumed;

    return p, Some(FlightSearchRequest(id, source, destination));
  }

  lemma ParseFlightSearchRequestAgree(d: seq<byte>, m: FlightSearchRequest)
    requires ValidFlightSearchRequest(m) && Agree(d, FlightSearchRequestBytes(m))
    ensures ParseFlightSearchRequest(d) ==
      if |FlightSearchRequestBytes(m)| <= |d| then Decoded(|FlightSearchRequestBytes(m)|, Some(FlightSearchRequest(m.id, m.source, m.destination))) else Fail()
  {
    var e0 := I32Bytes(FlightSearchRequestTag);
    var e1 := e0 + U64Bytes(m.id);
    var e2 := e1 + StrBytes(m.source);
    AgreeSplit(d, e2, StrBytes(m.destination));
    AgreeSplit(d, e1, StrBytes(m.source));
    AgreeSplit(d, e0, U64Bytes(m.id));
    if |d| < 4 {
      return;
    }
    DropNothing(d);
    ReadI32(d, 0, FlightSearchRequestTag);
    if |e0| + 8 <= |d| {
      ReadU64(d, |e0|, m.id);
    }
    if |d| < |e1| {
      return;
    }
    ParseStrAgree(d[|e1|..], m.source);
    if |d| < |e2| {
      return;
    }
    ParseStrAgree(d[|e2|..], m.destination);
  }

  /** Decoding the encoding of any FlightSearchRequest, followed by anything, recovers its encoded fields and stops where the encoding ends. */
  lemma FlightSearchRequestRoundTrip(m: FlightSearchRequest, rest: seq<byte>)
    requires ValidFlightSearchRequest(m)
    ensures ParseFlightSearchRequest(FlightSearchRequestBytes(m) + rest) == Decoded(|FlightSearchRequestBytes(m)|, Some(FlightSearchRequest(m.id, m.source, m.destination)))
  {
    AgreeExtended(FlightSearchRequestBytes(m), rest);
    ParseFlightSearchRequestAgree(FlightSearchRequestBytes(m) + rest, m);
  }

  /** Every proper prefix of the encoding fails to decode with `(0, none)`. */
  lemma FlightSearchRequestTruncated(m: FlightSearchRequest, k: nat)
    requires ValidFlightSearchRequest(m) && k < |FlightSearchRequestBytes(m)|
    ensures ParseFlightSearchRequest(FlightSearchRequestBytes(m)[..k]) == Fail()
  {
    AgreeTruncated(FlightSearchRequestBytes(m), k);
    ParseFlightSearchRequestAgree(FlightSearchRequestBytes(m)[..k], m);
  }

  /** What the decoder accepts is exactly the encoding of the value it returns. */
  lemma ParseFlightSearchRequestSound(d: seq<byte>)
    requires ParseFlightSearchRequest(d).Ok()
    ensures var r := ParseFlightSearchRequest(d); ValidFlightSearchRequest(r.value.value) && d[..r.consumed] == FlightSearchRequestBytes(r.value.value)
  {
    var p0 := 4;
    var id := U64At(d, p0);
    var p1 := p0 + 8;
    var sourceRes := ParseStr(d[p1..]);
    var p2 := p1 + sourceRes.consumed;
    var destinationRes := ParseStr(d[p2..]);
    var p3 := p2 + destinationRes.consumed;
    assert ParseFlightSearchRequest(d) == Decoded(p3, Some(FlightSearchRequest(id, sourceRes.value.value, destinationRes.value.value)));
    I32Back(d, 0);
    TakeFromStart(d, 4);
    U64Back(d, p0);
    PrefixJoin(d, p0, p1, I32Bytes(FlightSearchRequestTag), U64Bytes(id));
    StrJoin(d, p1, I32Bytes(FlightSearchRequestTag) + U64Bytes(id));
    StrJoin(d, p2, I32Bytes(FlightSearchRequestTag) + U64Bytes(id) + StrBytes(sourceRes.value.value));
  }

  // ---------------------------------------------------------------------
  // FlightSearchResponse

  /** The flights found, or a non-zero status and a message. */
  datatype FlightSearchResponse = FlightSearchResponse(
    id: u64,
    status_code: i32,
    message: seq<byte>,
    flights: seq<Flight>)

  /** Strings and lists short enough for their 4-byte length prefix. */
  predicate ValidFlightSearchResponse(m: FlightSearchResponse)
  {
    |m.message| < 0x1_0000_0000 && ValidFlights(m.flights)
  }

  function FlightSearchResponseBytes(m: FlightSearchResponse): (b: seq<byte>)
    ensures |b| == 4 + 8 + 4 + (4 + |m.message|) + |FlightListBytes(m.flights)|
  {
    I32Bytes(FlightSearchResponseTag)
    + U64Bytes(m.id)
    + I32Bytes(m.status_code)
    + StrBytes(m.message)
    + FlightListBytes(m.flights)
  }

  method MarshalFlightSearchResponse(m: FlightSearchResponse) returns (data: seq<byte>)
    ensures data == FlightSearchResponseBytes(m)
  {
    data := I32Bytes(FlightSearchResponseTag);
    data := data + U64Bytes(m.id);
    data := data + I32Bytes(m.status_code);
    data := data + StrBytes(m.message);
    data := data + FlightListBytes(m.flights);
  }

  function ParseFlightSearchResponse(d: seq<byte>): (r: Decoded<FlightSearchResponse>)
    ensures r.consumed <= |d|
    ensures r.Ok() ==> HasTag(d, FlightSearchResponseTag)
    ensures !r.Ok() ==> r == Fail()
  {
    if |d| < 4 then Fail() else
    if I32At(d, 0) != FlightSearchResponseTag then Fail() else
    var p0 := 4;
    if p0 + 8 > |d| then Fail() else
    var id := U64At(d, p0);
    var p1 := p0 + 8;
    if p1 + 4 > |d| then Fail() else
    var statusCode := I32At(d, p1);
    var p2 := p1 + 4;
    var messageRes := ParseStr(d[p2..]);
    if !messageRes.Ok() then Fail() else
    var p3 := p2 + messageRes.consumed;
    var flightsRes := ParseFlightList(d[p3..]);
    if !flightsRes.Ok() then Fail() else
    var p4 := p3 + flightsRes.consumed;
    Decoded(p4, Some(FlightSearchResponse(id, statusCode, messageRes.value.value, flightsRes.value.value)))
  }

  method UnmarshalFlightSearchResponse(data: seq<byte>) returns (consumed: nat, response: Option<FlightSearchResponse>)
    ensures Decoded(consumed, response) == ParseFlightSearchResponse(data)
  {
    if |data| < 4 {
      return 0, None;
    }
    var messageType := I32At(data, 0);
    if messageType != FlightSearchResponseTag {
      return 0, None;
    }

    var p := 4;

    if p + 8 > |data| {
      return 0, None;
    }
    var id := U64At(data, p);
    p := p + 8;

    if p + 4 > |data| {
      return 0, None;
    }
    var statusCode := I32At(data, p);
    p := p + 4;

    var messageRes := ParseStr(data[p..]);
    if !messageRes.Ok() {
      return 0, None;
    }
    var message := messageRes.value.value;
    p := p + messageRes.consumed;

    var flightsRes := ParseFlightList(data[p..]);
    if !flightsRes.Ok() {
      return 0, None;
    }
    var flights := flightsRes.value.value;
    p := p + flightsRes.consumed;

    return p, Some(FlightSearchResponse(id, statusCode, message, flights));
  }

  lemma ParseFlightSearchResponseAgree(d: seq<byte>, m: FlightSearchResponse)
    requires ValidFlightSearchResponse(m) && Agree(d, FlightSearchResponseBytes(m))
    ensures ParseFlightSearchResponse(d) ==
      if |FlightSearchResponseBytes(m)| <= |d| then Decoded(|FlightSearchResponseBytes(m)|, Some(FlightSearchResponse(m.id, m.status_code, m.message, m.flights))) else Fail()
  {
    var e0 := I32Bytes(FlightSearchResponseTag);
    var e1 := e0 + U64Bytes(m.id);
    var e2 := e1 + I32Bytes(m.status_code);
    var e3 := e2 + StrBytes(m.message);
    AgreeSplit(d, e3, FlightListBytes(m.flights));
    AgreeSplit(d, e2, StrBytes(m.message));
    AgreeSplit(d, e1, I32Bytes(m.status_code));
    AgreeSplit(d, e0, U64Bytes(m.id));
    if |d| < 4 {
      return;
    }
    assert && I32At(d, 0) == FlightSearchResponseTag
           && (|e0| + 8 <= |d| ==> U64At(d, |e0|) == m.id)
           && (|e1| + 4 <= |d| ==> I32At(d, |e1|) == m.status_code) by {
      DropNothing(d);
      ReadI32(d, 0, FlightSearchResponseTag);
      if |e0| + 8 <= |d| {
        ReadU64(d, |e0|, m.id);
      }
      if |e1| + 4 <= |d| {
        ReadI32(d, |e1|, m.status_code);
      }
    }
    if |d| < |e2| {
      return;
    }
    assert |e2| == 16 && |e3| == 20 + |m.message|;
    ParseStrAgree(d[16..], m.message);
    if |d| < |e3| {
      assert ParseStr(d[16..]) == Fail();
      return;
    }
    assert ParseStr(d[16..]) == Decoded(4 + |m.message|, Some(m.message));
    ParseFlightListAgree(d[|e3|..], m.flights);
    var flightsRes := ParseFlightList(d[|e3|..]);
    if !flightsRes.Ok() {
      return;
    }
    assert ParseFlightSearchResponse(d) == Decoded(|e3| + flightsRes.consumed, Some(FlightSearchResponse(m.id, m.status_code, m.message, m.flights)));
  }

  /** Decoding the encoding of any FlightSearchResponse, followed by anything, recovers its encoded fields and stops where the encoding ends. */
  lemma FlightSearchResponseRoundTrip(m: FlightSearchResponse, rest: seq<byte>)
    requires ValidFlightSearchResponse(m)
    ensures ParseFlightSearchResponse(FlightSearchResponseBytes(m) + rest) == Decoded(|FlightSearchResponseBytes(m)|, Some(FlightSearchResponse(m.id, m.status_code, m.message, m.flights)))
  {
    AgreeExtended(FlightSearchResponseBytes(m), rest);
    ParseFlightSearchResponseAgree(FlightSearchResponseBytes(m) + rest, m);
  }

  /** Every proper prefix of the encoding fails to decode with `(0, none)`. */
  lemma FlightSearchResponseTruncated(m: FlightSearchResponse, k: nat)
    requires ValidFlightSearchResponse(m) && k < |FlightSearchResponseBytes(m)|
    ensures ParseFlightSearchResponse(FlightSearchResponseBytes(m)[..k]) == Fail()
  {
    AgreeTruncated(FlightSearchResponseBytes(m), k);
    ParseFlightSearchResponseAgree(FlightSearchResponseBytes(m)[..k], m);
  }

  /** What the decoder accepts is exactly the encoding of the value it returns. */
  /** The fields an accepting decode read, at the offsets it read them. */
  lemma FlightSearchResponseFields(d: seq<byte>)
    requires ParseFlightSearchResponse(d).Ok()
    ensures |d| >= 16 && ParseStr(d[16..]).Ok()
    ensures var p3 := 16 + ParseStr(d[16..]).consumed;
      && p3 <= |d| && ParseFlightList(d[p3..]).Ok()
      && ParseFlightSearchResponse(d) == Decoded(p3 + ParseFlightList(d[p3..]).consumed,
           Some(FlightSearchResponse(U64At(d, 4), I32At(d, 12), ParseStr(d[16..]).value.value, ParseFlightList(d[p3..]).value.value)))
  {
  }

  lemma ParseFlightSearchResponseSound(d: seq<byte>)
    requires ParseFlightSearchResponse(d).Ok()
    ensures var r := ParseFlightSearchResponse(d); ValidFlightSearchResponse(r.value.value) && d[..r.consumed] == FlightSearchResponseBytes(r.value.value)
  {
    var id := U64At(d, 4);
    var statusCode := I32At(d, 12);
    var messageRes := ParseStr(d[16..]);
    var p3 := 16 + messageRes.consumed;
    var flightsRes := ParseFlightList(d[p3..]);
    var m := FlightSearchResponse(id, statusCode, messageRes.value.value, flightsRes.value.value);
    FlightSearchResponseFields(d);
    var header := I32Bytes(FlightSearchResponseTag) + U64Bytes(id) + I32Bytes(statusCode);
    assert d[..16] == header by {
      I32Back(d, 0);
      TakeFromStart(d, 4);
      U64Back(d, 4);
      PrefixJoin(d, 4, 12, I32Bytes(FlightSearchResponseTag), U64Bytes(id));
      I32Back(d, 12);
      PrefixJoin(d, 12, 16, I32Bytes(FlightSearchResponseTag) + U64Bytes(id), I32Bytes(statusCode));
    }
    StrJoin(d, 16, header);
    FlightListJoin(d, p3, header + StrBytes(m.message));
    assert FlightSearchResponseBytes(m) == header + StrBytes(m.message) + FlightListBytes(m.flights);
  }

  // ---------------------------------------------------------------------
  // PriceRangeSearchRequest

  /** A search for the flights whose airfare lies between `from` and `to`. */
  datatype PriceRangeSearchRequest = PriceRangeSearchRequest(
    id: u64,
    from: f32,
    to: f32)

  function PriceRangeSearchRequestBytes(m: PriceRangeSearchRequest): (b: seq<byte>)
    ensures |b| == 20
  {
    I32Bytes(PriceRangeSearchRequestTag)
    + U64Bytes(m.id)
    + m.from
    + m.to
  }

  method MarshalPriceRangeSearchRequest(m: PriceRangeSearchRequest) returns (data: seq<byte>)
    ensures data == PriceRangeSearchRequestBytes(m)
  {
    data := I32Bytes(PriceRangeSearchRequestTag);
    data := data + U64Bytes(m.id);
    data := data + m.from;
    data := data + m.to;
  }

  function ParsePriceRangeSearchRequest(d: seq<byte>): (r: Decoded<PriceRangeSearchRequest>)
    ensures r.consumed <= |d|
    ensures r.Ok() ==> HasTag(d, PriceRangeSearchRequestTag)
    ensures !r.Ok() ==> r == Fail()
  {
    if |d| < 4 then Fail() else
    if I32At(d, 0) != PriceRangeSearchRequestTag then Fail() else
    var p0 := 4;
    if p0 + 8 > |d| then Fail() else
    var id := U64At(d, p0);
    var p1 := p0 + 8;
    if p1 + 4 > |d| then Fail() else
    var from := F32At(d, p1);
    var p2 := p1 + 4;
    if p2 + 4 > |d| then Fail() else
    var to := F32At(d, p2);
    var p3 := p2 + 4;
    Decoded(p3, Some(PriceRangeSearchRequest(id, from, to)))
  }

  method UnmarshalPriceRangeSearchRequest(data: seq<byte>) returns (consumed: nat, request: Option<PriceRangeSearchRequest>)
    ensures Decoded(consumed, request) == ParsePriceRangeSearchRequest(data)
  {
    if |data| < 4 {
      return 0, None;
    }
    var messageType := I32At(data, 0);
    if messageType != PriceRangeSearchRequestTag {
      return 0, None;
    }

    var p := 4;

    if p + 8 > |data| {
      return 0, None;
    }
    var id := U64At(data, p);
    p := p + 8;

    if p + 4 > |data| {
      return 0, None;
    }
    var from := F32At(data, p);
    p := p + 4;

    if p + 4 > |data| {
      return 0, None;
    }
    var to := F32At(data, p);
    p := p + 4;

    return p, Some(PriceRangeSearchRequest(id, from, to));
  }

  lemma ParsePriceRangeSearchRequestAgree(d: seq<byte>, m: PriceRangeSearchRequest)
    requires Agree(d, PriceRangeSearchRequestBytes(m))
    ensures ParsePriceRangeSearchRequest(d) ==
      if |PriceRangeSearchRequestBytes(m)| <= |d| then Decoded(|PriceRangeSearchRequestBytes(m)|, Some(PriceRangeSearchRequest(m.id, m.from, m.to))) else Fail()
  {
    var e0 := I32Bytes(PriceRangeSearchRequestTag);
    var e1 := e0 + U64Bytes(m.id);
    var e2 := e1 + m.from;
    AgreeSplit(d, e2, m.to);
    AgreeSplit(d, e1, m.from);
    AgreeSplit(d, e0, U64Bytes(m.id));
    if |d| < 4 {
      return;
    }
    DropNothing(d);
    ReadI32(d, 0, PriceRangeSearchRequestTag);
    if |e0| + 8 <= |d| {
      ReadU64(d, |e0|, m.id);
    }
    if |e1| + 4 <= |d| {
      ReadF32(d, |e1|, m.from);
    }
    if |e2| + 4 <= |d| {
      ReadF32(d, |e2|, m.to);
    }
  }

  /** Decoding the encoding of any PriceRangeSearchRequest, followed by anything, recovers its encoded fields and stops where the encoding ends. */
  lemma PriceRangeSearchRequestRoundTrip(m: PriceRangeSearchRequest, rest: seq<byte>)
    ensures ParsePriceRangeSearchRequest(PriceRangeSearchRequestBytes(m) + rest) == Decoded(|PriceRangeSearchRequestBytes(m)|, Some(PriceRangeSearchRequest(m.id, m.from, m.to)))
  {
    AgreeExtended(PriceRangeSearchRequestBytes(m), rest);
    ParsePriceRangeSearchRequestAgree(PriceRangeSearchRequestBytes(m) + rest, m);
  }

  /** Every proper prefix of the encoding fails to decode with `(0, none)`. */
  lemma PriceRangeSearchRequestTruncated(m: PriceRangeSearchRequest, k: nat)
    requires k < |PriceRangeSearchRequestBytes(m)|
    ensures ParsePriceRangeSearchRequest(PriceRangeSearchRequestBytes(m)[..k]) == Fail()
  {
    AgreeTruncated(PriceRangeSearchRequestBytes(m), k);
    ParsePriceRangeSearchRequestAgree(PriceRangeSearchRequestBytes(m)[..k], m);
  }

  /** What the decoder accepts is exactly the encoding of the value it returns. */
  lemma ParsePriceRangeSearchRequestSound(d: seq<byte>)
    requires ParsePriceRangeSearchRequest(d).Ok()
    ensures var r := ParsePriceRangeSearchRequest(d); d[..r.consumed] == PriceRangeSearchRequestBytes(r.value.value)
  {
    var p0 := 4;
    var id := U64At(d, p0);
    var p1 := p0 + 8;
    var from := F32At(d, p1);
    var p2 := p1 + 4;
    var to := F32At(d, p2);
    var p3 := p2 + 4;
    assert ParsePriceRangeSearchRequest(d) == Decoded(p3, Some(PriceRangeSearchRequest(id, from, to)));
    I32Back(d, 0);
    TakeFromStart(d, 4);
    U64Back(d, p0);
    PrefixJoin(d, p0, p1, I32Bytes(PriceRangeSearchRequestTag), U64Bytes(id));
    PrefixJoin(d, p1, p2, I32Bytes(PriceRangeSearchRequestTag) + U64Bytes(id), from);
    PrefixJoin(d, p2, p3, I32Bytes(PriceRangeSearchRequestTag) + U64Bytes(id) + from, to);
  }

  // ---------------------------------------------------------------------
  // PriceRangeSearchResponse

  /** The flights found, or a non-zero status and a message. */
  datatype PriceRangeSearchResponse = PriceRangeSearchResponse(
    id: u64,
    status_code: i32,
    message: seq<byte>,
    flights: seq<Flight>)

  /** Strings and lists short enough for their 4-byte length prefix. */
  predicate ValidPriceRangeSearchResponse(m: PriceRangeSearchResponse)
  {
    |m.message| < 0x1_0000_0000 && ValidFlights(m.flights)
  }

  function PriceRangeSearchResponseBytes(m: PriceRangeSearchResponse): (b: seq<byte>)
    ensures |b| == 4 + 8 + 4 + (4 + |m.message|) + |FlightListBytes(m.flights)|
  {
    I32Bytes(PriceRangeSearchResponseTag)
    + U64Bytes(m.id)
    + I32Bytes(m.status_code)
    + StrBytes(m.message)
    + FlightListBytes(m.flights)
  }

  method MarshalPriceRangeSearchResponse(m: PriceRangeSearchResponse) returns (data: seq<byte>)
    ensures data == PriceRangeSearchResponseBytes(m)
  {
    data := I32Bytes(PriceRangeSearchResponseTag);
    data := data + U64Bytes(m.id);
    data := data + I32Bytes(m.status_code);
    data := data + StrBytes(m.message);
    data := data + FlightListBytes(m.flights);
  }

  function ParsePriceRangeSearchResponse(d: seq<byte>): (r: Decoded<PriceRangeSearchResponse>)
    ensures r.consumed <= |d|
    ensures r.Ok() ==> HasTag(d, PriceRangeSearchResponseTag)
    ensures !r.Ok() ==> r == Fail()
  {
    if |d| < 4 then Fail() else
    if I32At(d, 0) != PriceRangeSearchResponseTag then Fail() else
    var p0 := 4;
    if p0 + 8 > |d| then Fail() else
    var id := U64At(d, p0);
    var p1 := p0 + 8;
    if p1 + 4 > |d| then Fail() else
    var statusCode := I32At(d, p1);
    var p2 := p1 + 4;
    var messageRes := ParseStr(d[p2..]);
    if !messageRes.Ok() then Fail() else
    var p3 := p2 + messageRes.consumed;
    var flightsRes := ParseFlightList(d[p3..]);
    if !flightsRes.Ok() then Fail() else
    var p4 := p3 + flightsRes.consumed;
    Decoded(p4, Some(PriceRangeSearchResponse(id, statusCode, messageRes.value.value, flightsRes.value.value)))
  }

  method UnmarshalPriceRangeSearchResponse(data: seq<byte>) returns (consumed: nat, response: Option<PriceRangeSearchResponse>)
    ensures Decoded(consumed, response) == ParsePriceRangeSearchResponse(data)
  {
    if |data| < 4 {
      return 0, None;
    }
    var messageType := I32At(data, 0);
    if messageType != PriceRangeSearchResponseTag {
      return 0, None;
    }

    var p := 4;

    if p + 8 > |data| {
      return 0, None;
    }
    var id := U64At(data, p);
    p := p + 8;

    if p + 4 > |data| {
      return 0, None;
    }
    var statusCode := I32At(data, p);
    p := p + 4;

    var messageRes := ParseStr(data[p..]);
    if !messageRes.Ok() {
      return 0, None;
    }
    var message := messageRes.value.value;
    p := p + messageRes.consumed;

    var flightsRes := ParseFlightList(data[p..]);
    if !flightsRes.Ok() {
      return 0, None;
    }
    var flights := flightsRes.value.value;
    p := p + flightsRes.consumed;

    return p, Some(PriceRangeSearchResponse(id, statusCode, message, flights));
  }

  lemma ParsePriceRangeSearchResponseAgree(d: seq<byte>, m: PriceRangeSearchResponse)
    requires ValidPriceRangeSearchResponse(m) && Agree(d, PriceRangeSearchResponseBytes(m))
    ensures ParsePriceRangeSearchResponse(d) ==
      if |PriceRangeSearchResponseBytes(m)| <= |d| then Decoded(|PriceRangeSearchResponseBytes(m)|, Some(PriceRangeSearchResponse(m.id, m.status_code, m.message, m.flights))) else Fail()
  {
    var e0 := I32Bytes(PriceRangeSearchResponseTag);
    var e1 := e0 + U64Bytes(m.id);
    var e2 := e1 + I32Bytes(m.status_code);
    var e3 := e2 + StrBytes(m.message);
    AgreeSplit(d, e3, FlightListBytes(m.flights));
    AgreeSplit(d, e2, StrBytes(m.message));
    AgreeSplit(d, e1, I32Bytes(m.status_code));
    AgreeSplit(d, e0, U64Bytes(m.id));
    if |d| < 4 {
      return;
    }
    assert && I32At(d, 0) == PriceRangeSearchResponseTag
           && (|e0| + 8 <= |d| ==> U64At(d, |e0|) == m.id)
           && (|e1| + 4 <= |d| ==> I32At(d, |e1|) == m.status_code) by {
      DropNothing(d);
      ReadI32(d, 0, PriceRangeSearchResponseTag);
      if |e0| + 8 <= |d| {
        ReadU64(d, |e0|, m.id);
      }
      if |e1| + 4 <= |d| {
        ReadI32(d, |e1|, m.status_code);
      }
    }
    if |d| < |e2| {
      return;
    }
    assert |e2| == 16 && |e3| == 20 + |m.message|;
    ParseStrAgree(d[16..], m.message);
    if |d| < |e3| {
      assert ParseStr(d[16..]) == Fail();
      return;
    }
    assert ParseStr(d[16..]) == Decoded(4 + |m.message|, Some(m.message));
    ParseFlightListAgree(d[|e3|..], m.flights);
    var flightsRes := ParseFlightList(d[|e3|..]);
    if !flightsRes.Ok() {
      return;
    }
    assert ParsePriceRangeSearchResponse(d) == Decoded(|e3| + flightsRes.consumed, Some(PriceRangeSearchResponse(m.id, m.status_code, m.message, m.flights)));
  }

  /** Decoding the encoding of any PriceRangeSearchResponse, followed by anything, recovers its encoded fields and stops where the encoding ends. */
  lemma PriceRangeSearchResponseRoundTrip(m: PriceRangeSearchResponse, rest: seq<byte>)
    requires ValidPriceRangeSearchResponse(m)
    ensures ParsePriceRangeSearchResponse(PriceRangeSearchResponseBytes(m) + rest) == Decoded(|PriceRangeSearchResponseBytes(m)|, Some(PriceRangeSearchResponse(m.id, m.status_code, m.message, m.flights)))
  {
    AgreeExtended(PriceRangeSearchResponseBytes(m), rest);
    ParsePriceRangeSearchResponseAgree(PriceRangeSearchResponseBytes(m) + rest, m);
  }

  /** Every proper prefix of the encoding fails to decode with `(0, none)`. */
  lemma PriceRangeSearchResponseTruncated(m: PriceRangeSearchResponse, k: nat)
    requires ValidPriceRangeSearchResponse(m) && k < |PriceRangeSearchResponseBytes(m)|
    ensures ParsePriceRangeSearchResponse(PriceRangeSearchResponseBytes(m)[..k]) == Fail()
  {
    AgreeTruncated(PriceRangeSearchResponseBytes(m), k);
    ParsePriceRangeSearchResponseAgree(PriceRangeSearchResponseBytes(m)[..k], m);
  }

  /** What the decoder accepts is exactly the encoding of the value it returns. */
  /** The fields an accepting decode read, at the offsets it read them. */
  lemma PriceRangeSearchResponseFields(d: seq<byte>)
    requires ParsePriceRangeSearchResponse(d).Ok()
    ensures |d| >= 16 && ParseStr(d[16..]).Ok()
    ensures var p3 := 16 + ParseStr(d[16..]).consumed;
      && p3 <= |d| && ParseFlightList(d[p3..]).Ok()
      && ParsePriceRangeSearchResponse(d) == Decoded(p3 + ParseFlightList(d[p3..]).consumed,
           Some(PriceRangeSearchResponse(U64At(d, 4), I32At(d, 12), ParseStr(d[16..]).value.value, ParseFlightList(d[p3..]).value.value)))
  {
  }

  lemma ParsePriceRangeSearchResponseSound(d: seq<byte>)
    requires ParsePriceRangeSearchResponse(d).Ok()
    ensures var r := ParsePriceRangeSearchResponse(d); ValidPriceRangeSearchResponse(r.value.value) && d[..r.consumed] == PriceRangeSearchResponseBytes(r.value.value)
  {
    var id := U64At(d, 4);
    var statusCode := I32At(d, 12);
    var messageRes := ParseStr(d[16..]);
    var p3 := 16 + messageRes.consumed;
    var flightsRes := ParseFlightList(d[p3..]);
    var m := PriceRangeSearchResponse(id, statusCode, messageRes.value.value, flightsRes.value.value);
    PriceRangeSearchResponseFields(d);
    var header := I32Bytes(PriceRangeSearchResponseTag) + U64Bytes(id) + I32Bytes(statusCode);
    assert d[..16] == header by {
      I32Back(d, 0);
      TakeFromStart(d, 4);
      U64Back(d, 4);
      PrefixJoin(d, 4, 12, I32Bytes(PriceRangeSearchResponseTag), U64Bytes(id));
      I32Back(d, 12);
      PrefixJoin(d, 12, 16, I32Bytes(PriceRangeSearchResponseTag) + U64Bytes(id), I32Bytes(statusCode));
    }
    StrJoin(d, 16, header);
    FlightListJoin(d, p3, header + StrBytes(m.message));
    assert PriceRangeSearchResponseBytes(m) == header + StrBytes(m.message) + FlightListBytes(m.flights);
  }

  // ---------------------------------------------------------------------
  // Shared tags

  /**
   * The price-range request reuses the flight-search request's tag, so the
   * flight-search decoder, which the server tries first, accepts a
   * price-range request exactly when both bounds are the all-zero pattern
   * +0.0, and then reads it as a search with empty source and destination.
   */
  lemma PriceRangeReadAsFlightSearch(m: PriceRangeSearchRequest)
    ensures ParseFlightSearchRequest(PriceRangeSearchRequestBytes(m)).Ok() <==> m.from == PositiveZero && m.to == PositiveZero
    ensures m.from == PositiveZero && m.to == PositiveZero ==>
      ParseFlightSearchRequest(PriceRangeSearchRequestBytes(m)) == Decoded(20, Some(FlightSearchRequest(m.id, [], [])))
  {
    var d := PriceRangeSearchRequestBytes(m);
    if m.from == PositiveZero && m.to == PositiveZero {
      var q := FlightSearchRequest(m.id, [], []);
      assert StrBytes([]) == PositiveZero;
      assert d == FlightSearchRequestBytes(q);
      FlightSearchRequestRoundTrip(q, []);
      assert d + [] == d;
    } else if ParseFlightSearchRequest(d).Ok() {
      var e := d[12..];
      assert e == m.from + m.to;
      assert e[0..4] == m.from;
      var n := U32Of(m.from);
      assert ParseStr(e).Ok() && ParseStr(e).consumed == 4 + n;
      assert n <= 4;
      var e2 := d[16 + n..];
      assert ParseStr(e2).Ok();
      assert n == 0;
      assert e2[0..4] == m.to;
      U32OfZero(m.from);
      U32OfZero(m.to);
      assert false;
    }
  }

  /**
   * The two search responses share tag and layout, so a client expecting
   * either one decodes the other's encoding field for field.
   */
  lemma SearchResponsesInterchangeable(m: FlightSearchResponse, rest: seq<byte>)
    requires ValidFlightSearchResponse(m)
    ensures var p := PriceRangeSearchResponse(m.id, m.status_code, m.message, m.flights);
      FlightSearchResponseBytes(m) == PriceRangeSearchResponseBytes(p)
      && ParsePriceRangeSearchResponse(FlightSearchResponseBytes(m) + rest) == Decoded(|FlightSearchResponseBytes(m)|, Some(p))
  {
    var p := PriceRangeSearchResponse(m.id, m.status_code, m.message, m.flights);
    PriceRangeSearchResponseRoundTrip(p, rest);
  }

  /** A buffer that opens with the encoding of tag `t` is accepted by a decoder of this module only if `t` is that decoder's tag. */
  lemma SearchDecodersCheckTag(d: seq<byte>, t: i32)
    requires |d| >= 4 && d[..4] == I32Bytes(t)
    ensures ParseFlightSearchRequest(d).Ok() ==> t == FlightSearchRequestTag
    ensures ParseFlightSearchResponse(d).Ok() ==> t == FlightSearchResponseTag
    ensures ParsePriceRangeSearchRequest(d).Ok() ==> t == PriceRangeSearchRequestTag
    ensures ParsePriceRangeSearchResponse(d).Ok() ==> t == PriceRangeSearchResponseTag
  {
    TagDetermined(d, t, FlightSearchRequestTag);
    TagDetermined(d, t, FlightSearchResponseTag);
  }
}
