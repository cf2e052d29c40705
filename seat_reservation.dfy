/**
 * The seat-reservation messages: the request (tag 5, id, identifier, seats)
 * and the response (tag 6, id, status code, message, identifier, seats).
 */
module SeatReservation {
  import opened Wire
  import opened MessageType
  import opened Flights

  // ---------------------------------------------------------------------
  // SeatReservationRequest

  /** A request to reserve `seats` seats on flight `identifier`. */
  datatype SeatReservationRequest = SeatReservationRequest(
    id: u64,
    identifier: i32,
    seats: i32)

  function SeatReservationRequestBytes(m: SeatReservationRequest): (b: seq<byte>)
    ensures |b| == 20
  {
    I32Bytes(SeatReservationRequestTag)
    + U64Bytes(m.id)
    + I32Bytes(m.identifier)
    + I32Bytes(m.seats)
  }

  method MarshalSeatReservationRequest(m: SeatReservationRequest) returns (data: seq<byte>)
    ensures data == SeatReservationRequestBytes(m)
  {
    data := I32Bytes(SeatReservationRequestTag);
    data := data + U64Bytes(m.id);
    data := data + I32Bytes(m.identifier);
    data := data + I32Bytes(m.seats);
  }

  function ParseSeatReservationRequest(d: seq<byte>): (r: Decoded<SeatReservationRequest>)
    ensures r.consumed <= |d|
    ensures r.Ok() ==> HasTag(d, SeatReservationRequestTag)
    ensures !r.Ok() ==> r == Fail()
  {
    if |d| < 4 then Fail() else
    if I32At(d, 0) != SeatReservationRequestTag then Fail() else
    var p0 := 4;
    if p0 + 8 > |d| then Fail() else
    var id := U64At(d, p0);
    var p1 := p0 + 8;
    if p1 + 4 > |d| then Fail() else
    var identifier := I32At(d, p1);
    var p2 := p1 + 4;
    if p2 + 4 > |d| then Fail() else
    var seats := I32At(d, p2);
    var p3 := p2 + 4;
    Decoded(p3, Some(SeatReservationRequest(id, identifier, seats)))
  }

  method UnmarshalSeatReservationRequest(data: seq<byte>) returns (consumed: nat, request: Option<SeatReservationRequest>)
    ensures Decoded(consumed, request) == ParseSeatReservationRequest(data)
  {
    if |data| < 4 {
      return 0, None;
    }
    var messageType := I32At(data, 0);
    if messageType != SeatReservationRequestTag {
      return 0, None;
    }

    var p := 4;

    if p + 8 > |data| {
      return 0, None;
    }
    var id := U64At(data, p);
    p := p + 8;

    if p + 4 > |data| {
      return 0, None;
    }
    var identifier := I32At(data, p);
    p := p + 4;

    if p + 4 > |data| {
      return 0, None;
    }
    var seats := I32At(data, p);
    p := p + 4;

    return p, Some(SeatReservationRequest(id, identifier, seats));
  }

  lemma ParseSeatReservationRequestAgree(d: seq<byte>, m: SeatReservationRequest)
    requires Agree(d, SeatReservationRequestBytes(m))
    ensures ParseSeatReservationRequest(d) ==
      if |SeatReservationRequestBytes(m)| <= |d| then Decoded(|SeatReservationRequestBytes(m)|, Some(SeatReservationRequest(m.id, m.identifier, m.seats))) else Fail()
  {
    var e0 := I32Bytes(SeatReservationRequestTag);
    var e1 := e0 + U64Bytes(m.id);
    var e2 := e1 + I32Bytes(m.identifier);
    AgreeSplit(d, e2, I32Bytes(m.seats));
    AgreeSplit(d, e1, I32Bytes(m.identifier));
    AgreeSplit(d, e0, U64Bytes(m.id));
    if |d| < 4 {
      return;
    }
    DropNothing(d);
    ReadI32(d, 0, SeatReservationRequestTag);
    if |e0| + 8 <= |d| {
      ReadU64(d, |e0|, m.id);
    }
    if |e1| + 4 <= |d| {
      ReadI32(d, |e1|, m.identifier);
    }
    if |e2| + 4 <= |d| {
      ReadI32(d, |e2|, m.seats);
    }
  }

  /** Decoding the encoding of any SeatReservationRequest, followed by anything, recovers its encoded fields and stops where the encoding ends. */
  lemma SeatReservationRequestRoundTrip(m: SeatReservationRequest, rest: seq<byte>)
    ensures ParseSeatReservationRequest(SeatReservationRequestBytes(m) + rest) == Decoded(|SeatReservationRequestBytes(m)|, Some(SeatReservationRequest(m.id, m.identifier, m.seats)))
  {
    AgreeExtended(SeatReservationRequestBytes(m), rest);
    ParseSeatReservationRequestAgree(SeatReservationRequestBytes(m) + rest, m);
  }

  /** Every proper prefix of the encoding fails to decode with `(0, none)`. */
  lemma SeatReservationRequestTruncated(m: SeatReservationRequest, k: nat)
    requires k < |SeatReservationRequestBytes(m)|
    ensures ParseSeatReservationRequest(SeatReservationRequestBytes(m)[..k]) == Fail()
  {
    AgreeTruncated(SeatReservationRequestBytes(m), k);
    ParseSeatReservationRequestAgree(SeatReservationRequestBytes(m)[..k], m);
  }

  /** What the decoder accepts is exactly the encoding of the value it returns. */
  lemma ParseSeatReservationRequestSound(d: seq<byte>)
    requires ParseSeatReservationRequest(d).Ok()
    ensures var r := ParseSeatReservationRequest(d); d[..r.consumed] == SeatReservationRequestBytes(r.value.value)
  {
    var p0 := 4;
    var id := U64At(d, p0);
    var p1 := p0 + 8;
    var identifier := I32At(d, p1);
    var p2 := p1 + 4;
    var seats := I32At(d, p2);
    var p3 := p2 + 4;
    assert ParseSeatReservationRequest(d) == Decoded(p3, Some(SeatReservationRequest(id, identifier, seats)));
    I32Back(d, 0);
    TakeFromStart(d, 4);
    U64Back(d, p0);
    PrefixJoin(d, p0, p1, I32Bytes(SeatReservationRequestTag), U64Bytes(id));
    I32Back(d, p1);
    PrefixJoin(d, p1, p2, I32Bytes(SeatReservationRequestTag) + U64Bytes(id), I32Bytes(identifier));
    I32Back(d, p2);
    PrefixJoin(d, p2, p3, I32Bytes(SeatReservationRequestTag) + U64Bytes(id) + I32Bytes(identifier), I32Bytes(seats));
  }

  // ---------------------------------------------------------------------
  // SeatReservationResponse

  /** The outcome of a reservation: status, message, flight and seats reserved. */
  datatype SeatReservationResponse = SeatReservationResponse(
    id: u64,
    status_code: i32,
    message: seq<byte>,
    identifier: i32,
    seats: i32)

  /** Strings and lists short enough for their 4-byte length prefix. */
  predicate ValidSeatReservationResponse(m: SeatReservationResponse)
  {
    |m.message| < 0x1_0000_0000
  }

  function SeatReservationResponseBytes(m: SeatReservationResponse): (b: seq<byte>)
    ensures |b| == 4 + 8 + 4 + (4 + |m.message|) + 4 + 4
  {
    I32Bytes(SeatReservationResponseTag)
    + U64Bytes(m.id)
    + I32Bytes(m.status_code)
    + StrBytes(m.message)
    + I32Bytes(m.identifier)
    + I32Bytes(m.seats)
  }

  method MarshalSeatReservationResponse(m: SeatReservationResponse) returns (data: seq<byte>)
    ensures data == SeatReservationResponseBytes(m)
  {
    data := I32Bytes(SeatReservationResponseTag);
    data := data + U64Bytes(m.id);
    data := data + I32Bytes(m.status_code);
    data := data + StrBytes(m.message);
    data := data + I32Bytes(m.identifier);
    data := data + I32Bytes(m.seats);
  }

  function ParseSeatReservationResponse(d: seq<byte>): (r: Decoded<SeatReservationResponse>)
    ensures r.consumed <= |d|
    ensures r.Ok() ==> HasTag(d, SeatReservationResponseTag)
    ensures !r.Ok() ==> r == Fail()
  {
    if |d| < 4 then Fail() else
    if I32At(d, 0) != SeatReservationResponseTag then Fail() else
    var p0 := 4;
    if p0 + 8 > |d| then Fail() else
    var id := U64At(d, p0);
    var p1 := p0 + 8;
    if p1 + 4 > |d| then Fail() else
    var statusCode := I32At(d, p1);
    var p2 := p1 + 4;
    var messageRes := ParseStr(d[p2..]);
    if !messageRes.Ok() then Fail() else
    var p3 := p2 + messageRes.consumed;
    if p3 + 4 > |d| then Fail() else
    var identifier := I32At(d, p3);
    var p4 := p3 + 4;
    if p4 + 4 > |d| then Fail() else
    var seats := I32At(d, p4);
    var p5 := p4 + 4;
    Decoded(p5, Some(SeatReservationResponse(id, statusCode, messageRes.value.value, identifier, seats)))
  }

  method UnmarshalSeatReservationResponse(data: seq<byte>) returns (consumed: nat, response: Option<SeatReservationResponse>)
    ensures Decoded(consumed, response) == ParseSeatReservationResponse(data)
  {
    if |data| < 4 {
      return 0, None;
    }
    var messageType := I32At(data, 0);
    if messageType != SeatReservationResponseTag {
      return 0, None;
    }

    var p := 4;

    if p + 8 > |data| {
      return 0, None;
    }
    var id := U64At(data, p);
    p := p + 8;

    if p + 4 > |data| {
      return 0, None;
    }
    var statusCode := I32At(data, p);
    p := p + 4;

    var messageRes := ParseStr(data[p..]);
    if !messageRes.Ok() {
      return 0, None;
    }
    var message := messageRes.value.value;
    p := p + messageRes.consumed;

    if p + 4 > |data| {
      return 0, None;
    }
    var identifier := I32At(data, p);
    p := p + 4;

    if p + 4 > |data| {
      return 0, None;
    }
    var seats := I32At(data, p);
    p := p + 4;

    return p, Some(SeatReservationResponse(id, statusCode, message, identifier, seats));
  }

  lemma ParseSeatReservationResponseAgree(d: seq<byte>, m: SeatReservationResponse)
    requires ValidSeatReservationResponse(m) && Agree(d, SeatReservationResponseBytes(m))
    ensures ParseSeatReservationResponse(d) ==
      if |SeatReservationResponseBytes(m)| <= |d| then Decoded(|SeatReservationResponseBytes(m)|, Some(SeatReservationResponse(m.id, m.status_code, m.message, m.identifier, m.seats))) else Fail()
  {
    var e0 := I32Bytes(SeatReservationResponseTag);
    var e1 := e0 + U64Bytes(m.id);
    var e2 := e1 + I32Bytes(m.status_code);
    var e3 := e2 + StrBytes(m.message);
    var e4 := e3 + I32Bytes(m.identifier);
    AgreeSplit(d, e4, I32Bytes(m.seats));
    AgreeSplit(d, e3, I32Bytes(m.identifier));
    AgreeSplit(d, e2, StrBytes(m.message));
    AgreeSplit(d, e1, I32Bytes(m.status_code));
    AgreeSplit(d, e0, U64Bytes(m.id));
    if |d| < 4 {
      return;
    }
    DropNothing(d);
    ReadI32(d, 0, SeatReservationResponseTag);
    if |e0| + 8 <= |d| {
      ReadU64(d, |e0|, m.id);
    }
    if |e1| + 4 <= |d| {
      ReadI32(d, |e1|, m.status_code);
    }
    if |d| < |e2| {
      return;
    }
    ParseStrAgree(d[|e2|..], m.message);
    if |e3| + 4 <= |d| {
      ReadI32(d, |e3|, m.identifier);
    }
    if |e4| + 4 <= |d| {
      ReadI32(d, |e4|, m.seats);
    }
  }

  /** Decoding the encoding of any SeatReservationResponse, followed by anything, recovers its encoded fields and stops where the encoding ends. */
  lemma SeatReservationResponseRoundTrip(m: SeatReservationResponse, rest: seq<byte>)
    requires ValidSeatReservationResponse(m)
    ensures ParseSeatReservationResponse(SeatReservationResponseBytes(m) + rest) == Decoded(|SeatReservationResponseBytes(m)|, Some(SeatReservationResponse(m.id, m.status_code, m.message, m.identifier, m.seats)))
  {
    AgreeExtended(SeatReservationResponseBytes(m), rest);
    ParseSeatReservationResponseAgree(SeatReservationResponseBytes(m) + rest, m);
  }

  /** Every proper prefix of the encoding fails to decode with `(0, none)`. */
  lemma SeatReservationResponseTruncated(m: SeatReservationResponse, k: nat)
    requires ValidSeatReservationResponse(m) && k < |SeatReservationResponseBytes(m)|
    ensures ParseSeatReservationResponse(SeatReservationResponseBytes(m)[..k]) == Fail()
  {
    AgreeTruncated(SeatReservationResponseBytes(m), k);
    ParseSeatReservationResponseAgree(SeatReservationResponseBytes(m)[..k], m);
  }

  /** What the decoder accepts is exactly the encoding of the value it returns. */
  lemma ParseSeatReservationResponseSound(d: seq<byte>)
    requires ParseSeatReservationResponse(d).Ok()
    ensures var r := ParseSeatReservationResponse(d); ValidSeatReservationResponse(r.value.value) && d[..r.consumed] == SeatReservationResponseBytes(r.value.value)
  {
    var p0 := 4;
    var id := U64At(d, p0);
    var p1 := p0 + 8;
    var statusCode := I32At(d, p1);
    var p2 := p1 + 4;
    var messageRes := ParseStr(d[p2..]);
    var p3 := p2 + messageRes.consumed;
    var identifier := I32At(d, p3);
    var p4 := p3 + 4;
    var seats := I32At(d, p4);
    var p5 := p4 + 4;
    assert ParseSeatReservationResponse(d) == Decoded(p5, Some(SeatReservationResponse(id, statusCode, messageRes.value.value, identifier, seats)));
    I32Back(d, 0);
    TakeFromStart(d, 4);
    U64Back(d, p0);
    PrefixJoin(d, p0, p1, I32Bytes(SeatReservationResponseTag), U64Bytes(id));
    I32Back(d, p1);
    PrefixJoin(d, p1, p2, I32Bytes(SeatReservationResponseTag) + U64Bytes(id), I32Bytes(statusCode));
    StrJoin(d, p2, I32Bytes(SeatReservationResponseTag) + U64Bytes(id) + I32Bytes(statusCode));
    I32Back(d, p3);
    PrefixJoin(d, p3, p4, I32Bytes(SeatReservationResponseTag) + U64Bytes(id) + I32Bytes(statusCode) + StrBytes(messageRes.value.value), I32Bytes(identifier));
    I32Back(d, p4);
    PrefixJoin(d, p4, p5, I32Bytes(SeatReservationResponseTag) + U64Bytes(id) + I32Bytes(statusCode) + StrBytes(messageRes.value.value) + I32Bytes(identifier), I32Bytes(seats));
  }

  /** A buffer that opens with the encoding of tag `t` is accepted by a decoder of this module only if `t` is that decoder's tag. */
  lemma ReservationDecodersCheckTag(d: seq<byte>, t: i32)
    requires |d| >= 4 && d[..4] == I32Bytes(t)
    ensures ParseSeatReservationRequest(d).Ok() ==> t == SeatReservationRequestTag
    ensures ParseSeatReservationResponse(d).Ok() ==> t == SeatReservationResponseTag
  {
    TagDetermined(d, t, SeatReservationRequestTag);
    TagDetermined(d, t, SeatReservationResponseTag);
  }
}
