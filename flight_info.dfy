/**
 * The flight-information messages. The request is written into a fixed
 * 8-byte buffer (tag 3, identifier); the response is tag 4, a message and a
 * list of flights. Neither message encodes its `id`, and the response does
 * not encode its `status_code`: the decoders leave those fields zero.
 */
module FlightInfo {
  import opened Wire
  import opened MessageType
  import opened Flights

  // ---------------------------------------------------------------------
  // FlightInfoRequest

  /** A query for one flight; its `id` is declared but never encoded. */
  datatype FlightInfoRequest = FlightInfoRequest(
    id: i64,
    identifier: i32)

  function FlightInfoRequestBytes(m: FlightInfoRequest): (b: seq<byte>)
    ensures |b| == 8
  {
    I32Bytes(FlightInfoRequestTag)
    + I32Bytes(m.identifier)
  }

  /** Unlike the other encoders, this one writes both fields in place into a buffer of exactly eight bytes. */
  method MarshalFlightInfoRequest(m: FlightInfoRequest) returns (data: seq<byte>)
    ensures data == FlightInfoRequestBytes(m)
  {
    var buffer := new byte[8](_ => 0);
    var p := 0;
    WriteI32(buffer, p, FlightInfoRequestTag);
    p := p + 4;
    WriteI32(buffer, p, m.identifier);
    data := buffer[..];
  }

  function ParseFlightInfoRequest(d: seq<byte>): (r: Decoded<FlightInfoRequest>)
    ensures r.consumed <= |d|
    ensures r.Ok() ==> HasTag(d, FlightInfoRequestTag)
    ensures !r.Ok() ==> r == Fail()
  {
    if |d| < 4 then Fail() else
    if I32At(d, 0) != FlightInfoRequestTag then Fail() else
    var p0 := 4;
    if p0 + 4 > |d| then Fail() else
    var identifier := I32At(d, p0);
    var p1 := p0 + 4;
    Decoded(p1, Some(FlightInfoRequest(0, identifier)))
  }

  method UnmarshalFlightInfoRequest(data: seq<byte>) returns (consumed: nat, request: Option<FlightInfoRequest>)
    ensures Decoded(consumed, request) == ParseFlightInfoRequest(data)
  {
    if |data| < 4 {
      return 0, None;
    }
    var messageType := I32At(data, 0);
    if messageType != FlightInfoRequestTag {
      return 0, None;
    }

    var p := 4;

    if p + 4 > |data| {
      return 0, None;
    }
    var identifier := I32At(data, p);
    p := p + 4;

    return p, Some(FlightInfoRequest(0, identifier));
  }

  lemma ParseFlightInfoRequestAgree(d: seq<byte>, m: FlightInfoRequest)
    requires Agree(d, FlightInfoRequestBytes(m))
    ensures ParseFlightInfoRequest(d) ==
      if |FlightInfoRequestBytes(m)| <= |d| then Decoded(|FlightInfoRequestBytes(m)|, Some(FlightInfoRequest(0, m.identifier))) else Fail()
  {
    var e0 := I32Bytes(FlightInfoRequestTag);
    AgreeSplit(d, e0, I32Bytes(m.identifier));
    if |d| < 4 {
      return;
    }
    DropNothing(d);
    ReadI32(d, 0, FlightInfoRequestTag);
    if |e0| + 4 <= |d| {
      ReadI32(d, |e0|, m.identifier);
    }
  }

  /** Decoding the encoding of any FlightInfoRequest, followed by anything, recovers its encoded fields and stops where the encoding ends. */
  lemma FlightInfoRequestRoundTrip(m: FlightInfoRequest, rest: seq<byte>)
    ensures ParseFlightInfoRequest(FlightInfoRequestBytes(m) + rest) == Decoded(|FlightInfoRequestBytes(m)|, Some(FlightInfoRequest(0, m.identifier)))
  {
    AgreeExtended(FlightInfoRequestBytes(m), rest);
    ParseFlightInfoRequestAgree(FlightInfoRequestBytes(m) + rest, m);
  }

  /** Every proper prefix of the encoding fails to decode with `(0, none)`. */
  lemma FlightInfoRequestTruncated(m: FlightInfoRequest, k: nat)
    requires k < |FlightInfoRequestBytes(m)|
    ensures ParseFlightInfoRequest(FlightInfoRequestBytes(m)[..k]) == Fail()
  {
    AgreeTruncated(FlightInfoRequestBytes(m), k);
    ParseFlightInfoRequestAgree(FlightInfoRequestBytes(m)[..k], m);
  }

  /** What the decoder accepts is exactly the encoding of the value it returns. */
  lemma ParseFlightInfoRequestSound(d: seq<byte>)
    requires ParseFlightInfoRequest(d).Ok()
    ensures var r := ParseFlightInfoRequest(d); d[..r.consumed] == FlightInfoRequestBytes(r.value.value)
  {
    var p0 := 4;
    var identifier := I32At(d, p0);
    var p1 := p0 + 4;
    assert ParseFlightInfoRequest(d) == Decoded(p1, Some(FlightInfoRequest(0, identifier)));
    I32Back(d, 0);
    TakeFromStart(d, 4);
    I32Back(d, p0);
    PrefixJoin(d, p0, p1, I32Bytes(FlightInfoRequestTag), I32Bytes(identifier));
  }

  // ---------------------------------------------------------------------
  // FlightInfoResponse

  /** A message and a counted list of flights; `id` and `status_code` are declared but never encoded. */
  datatype FlightInfoResponse = FlightInfoResponse(
    id: i64,
    status_code: i32,
    message: seq<byte>,
    flight: seq<Flight>)

  /** Strings and lists short enough for their 4-byte length prefix. */
  predicate ValidFlightInfoResponse(m: FlightInfoResponse)
  {
    |m.message| < 0x1_0000_0000 && ValidFlights(m.flight)
  }

  function FlightInfoResponseBytes(m: FlightInfoResponse): (b: seq<byte>)
    ensures |b| == 4 + (4 + |m.message|) + |FlightListBytes(m.flight)|
  {
    I32Bytes(FlightInfoResponseTag)
    + StrBytes(m.message)
    + FlightListBytes(m.flight)
  }

  method MarshalFlightInfoResponse(m: FlightInfoResponse) returns (data: seq<byte>)
    ensures data == FlightInfoResponseBytes(m)
  {
    data := I32Bytes(FlightInfoResponseTag);
    data := data + StrBytes(m.message);
    data := data + FlightListBytes(m.flight);
  }

  function ParseFlightInfoResponse(d: seq<byte>): (r: Decoded<FlightInfoResponse>)
    ensures r.consumed <= |d|
    ensures r.Ok() ==> HasTag(d, FlightInfoResponseTag)
    ensures !r.Ok() ==> r == Fail()
  {
    if |d| < 4 then Fail() else
    if I32At(d, 0) != FlightInfoResponseTag then Fail() else
    var p0 := 4;
    var messageRes := ParseStr(d[p0..]);
    if !messageRes.Ok() then Fail() else
    var p1 := p0 + messageRes.consumed;
    var flightRes := ParseFlightList(d[p1..]);
    if !flightRes.Ok() then Fail() else
    var p2 := p1 + flightRes.consumed;
    Decoded(p2, Some(FlightInfoResponse(0, 0, messageRes.value.value, flightRes.value.value)))
  }

  method UnmarshalFlightInfoResponse(data: seq<byte>) returns (consumed: nat, response: Option<FlightInfoResponse>)
    ensures Decoded(consumed, response) == ParseFlightInfoResponse(data)
  {
    if |data| < 4 {
      return 0, None;
    }
    var messageType := I32At(data, 0);
    if messageType != FlightInfoResponseTag {
      return 0, None;
    }

    var p := 4;

    var messageRes := ParseStr(data[p..]);
    if !messageRes.Ok() {
      return 0, None;
    }
    var message := messageRes.value.value;
    p := p + messageRes.consumed;

    var flightRes := ParseFlightList(data[p..]);
    if !flightRes.Ok() {
      return 0, None;
    }
    var flight := flightRes.value.value;
    p := p + flightRes.consumed;

    return p, Some(FlightInfoResponse(0, 0, message, flight));
  }

  lemma ParseFlightInfoResponseAgree(d: seq<byte>, m: FlightInfoResponse)
    requires ValidFlightInfoResponse(m) && Agree(d, FlightInfoResponseBytes(m))
    ensures ParseFlightInfoResponse(d) ==
      if |FlightInfoResponseBytes(m)| <= |d| then Decoded(|FlightInfoResponseBytes(m)|, Some(FlightInfoResponse(0, 0, m.message, m.flight))) else Fail()
  {
    var e0 := I32Bytes(FlightInfoResponseTag);
    var e1 := e0 + StrBytes(m.message);
    AgreeSplit(d, e1, FlightListBytes(m.flight));
    AgreeSplit(d, e0, StrBytes(m.message));
    if |d| < 4 {
      return;
    }
    DropNothing(d);
    ReadI32(d, 0, FlightInfoResponseTag);
    if |d| < |e0| {
      return;
    }
    ParseStrAgree(d[|e0|..], m.message);
    if |d| < |e1| {
      return;
    }
    ParseFlightListAgree(d[|e1|..], m.flight);
  }

  /** Decoding the encoding of any FlightInfoResponse, followed by anything, recovers its encoded fields and stops where the encoding ends. */
  lemma FlightInfoResponseRoundTrip(m: FlightInfoResponse, rest: seq<byte>)
    requires ValidFlightInfoResponse(m)
    ensures ParseFlightInfoResponse(FlightInfoResponseBytes(m) + rest) == Decoded(|FlightInfoResponseBytes(m)|, Some(FlightInfoResponse(0, 0, m.message, m.flight)))
  {
    AgreeExtended(FlightInfoResponseBytes(m), rest);
    ParseFlightInfoResponseAgree(FlightInfoResponseBytes(m) + rest, m);
  }

  /** Every proper prefix of the encoding fails to decode with `(0, none)`. */
  lemma FlightInfoResponseTruncated(m: FlightInfoResponse, k: nat)
    requires ValidFlightInfoResponse(m) && k < |FlightInfoResponseBytes(m)|
    ensures ParseFlightInfoResponse(FlightInfoResponseBytes(m)[..k]) == Fail()
  {
    AgreeTruncated(FlightInfoResponseBytes(m), k);
    ParseFlightInfoResponseAgree(FlightInfoResponseBytes(m)[..k], m);
  }

  /** What the decoder accepts is exactly the encoding of the value it returns. */
  lemma ParseFlightInfoResponseSound(d: seq<byte>)
    requires ParseFlightInfoResponse(d).Ok()
    ensures var r := ParseFlightInfoResponse(d); ValidFlightInfoResponse(r.value.value) && d[..r.consumed] == FlightInfoResponseBytes(r.value.value)
  {
    var p0 := 4;
    var messageRes := ParseStr(d[p0..]);
    var p1 := p0 + messageRes.consumed;
    var flightRes := ParseFlightList(d[p1..]);
    var p2 := p1 + flightRes.consumed;
    assert ParseFlightInfoResponse(d) == Decoded(p2, Some(FlightInfoResponse(0, 0, messageRes.value.value, flightRes.value.value)));
    I32Back(d, 0);
    TakeFromStart(d, 4);
    StrJoin(d, p0, I32Bytes(FlightInfoResponseTag));
    FlightListJoin(d, p1, I32Bytes(FlightInfoResponseTag) + StrBytes(messageRes.value.value));
  }

  /** A buffer that opens with the encoding of tag `t` is accepted by a decoder of this module only if `t` is that decoder's tag. */
  lemma InfoDecodersCheckTag(d: seq<byte>, t: i32)
    requires |d| >= 4 && d[..4] == I32Bytes(t)
    ensures ParseFlightInfoRequest(d).Ok() ==> t == FlightInfoRequestTag
    ensures ParseFlightInfoResponse(d).Ok() ==> t == FlightInfoResponseTag
  {
    TagDetermined(d, t, FlightInfoRequestTag);
    TagDetermined(d, t, FlightInfoResponseTag);
  }
}
