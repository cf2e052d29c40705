/**
 * The seat-availability messages: the monitoring request and response
 * (tags 7 and 8), and the callback push and its acknowledgement (tags 9 and
 * 10). The monitoring request's `port` is not encoded.
 */
module SeatAvailability {
  import opened Wire
  import opened MessageType
  import opened Flights

  // ---------------------------------------------------------------------
  // SeatAvailabilityMonitoringRequest

  /** A request to be called back on `port` about flight `identifier` for `monitor_interval_sec` seconds; `port` is declared but never encoded. */
  datatype SeatAvailabilityMonitoringRequest = SeatAvailabilityMonitoringRequest(
    id: u64,
    identifier: i32,
    port: u16,
    monitor_interval_sec: i32)

  function SeatAvailabilityMonitoringRequestBytes(m: SeatAvailabilityMonitoringRequest): (b: seq<byte>)
    ensures |b| == 20
  {
    I32Bytes(SeatAvailabilityMonitoringRequestTag)
    + I64Bytes(U64AsI64(m.id))
    + I32Bytes(m.identifier)
    + I32Bytes(m.monitor_interval_sec)
  }

  method MarshalSeatAvailabilityMonitoringRequest(m: SeatAvailabilityMonitoringRequest) returns (data: seq<byte>)
    ensures data == SeatAvailabilityMonitoringRequestBytes(m)
  {
    data := I32Bytes(SeatAvailabilityMonitoringRequestTag);
    data := data + I64Bytes(U64AsI64(m.id));
    data := data + I32Bytes(m.identifier);
    data := data + I32Bytes(m.monitor_interval_sec);
  }

  function ParseSeatAvailabilityMonitoringRequest(d: seq<byte>): (r: Decoded<SeatAvailabilityMonitoringRequest>)
    ensures r.consumed <= |d|
    ensures r.Ok() ==> HasTag(d, SeatAvailabilityMonitoringRequestTag)
    ensures !r.Ok() ==> r == Fail()
  {
    if |d| < 4 then Fail() else
    if I32At(d, 0) != SeatAvailabilityMonitoringRequestTag then Fail() else
    var p0 := 4;
    if p0 + 8 > |d| then Fail() else
    var id := I64AsU64(I64At(d, p0));
    var p1 := p0 + 8;
    if p1 + 4 > |d| then Fail() else
    var identifier := I32At(d, p1);
    var p2 := p1 + 4;
    if p2 + 4 > |d| then Fail() else
    var monitorIntervalSec := I32At(d, p2);
    var p3 := p2 + 4;
    Decoded(p3, Some(SeatAvailabilityMonitoringRequest(id, identifier, 0, monitorIntervalSec)))
  }

  method UnmarshalSeatAvailabilityMonitoringRequest(data: seq<byte>) returns (consumed: nat, request: Option<SeatAvailabilityMonitoringRequest>)
    ensures Decoded(consumed, request) == ParseSeatAvailabilityMonitoringRequest(data)
  {
    if |data| < 4 {
      return 0, None;
    }
    var messageType := I32At(data, 0);
    if messageType != SeatAvailabilityMonitoringRequestTag {
      return 0, None;
    }

    var p := 4;

    if p + 8 > |data| {
      return 0, None;
    }
    var id := I64AsU64(I64At(data, p));
    p := p + 8;

    if p + 4 > |data| {
      return 0, None;
    }
    var identifier := I32At(data, p);
    p := p + 4;

    if p + 4 > |data| {
      return 0, None;
    }
    var monitorIntervalSec := I32At(data, p);
    p := p + 4;

    return p, Some(SeatAvailabilityMonitoringRequest(id, identifier, 0, monitorIntervalSec));
  }

  lemma ParseSeatAvailabilityMonitoringRequestAgree(d: seq<byte>, m: SeatAvailabilityMonitoringRequest)
    requires Agree(d, SeatAvailabilityMonitoringRequestBytes(m))
    ensures ParseSeatAvailabilityMonitoringRequest(d) ==
      if |SeatAvailabilityMonitoringRequestBytes(m)| <= |d| then Decoded(|SeatAvailabilityMonitoringRequestBytes(m)|, Some(SeatAvailabilityMonitoringRequest(m.id, m.identifier, 0, m.monitor_interval_sec))) else Fail()
  {
    var e0 := I32Bytes(SeatAvailabilityMonitoringRequestTag);
    var e1 := e0 + I64Bytes(U64AsI64(m.id));
    var e2 := e1 + I32Bytes(m.identifier);
    AgreeSplit(d, e2, I32Bytes(m.monitor_interval_sec));
    AgreeSplit(d, e1, I32Bytes(m.identifier));
    AgreeSplit(d, e0, I64Bytes(U64AsI64(m.id)));
    if |d| < 4 {
      return;
    }
    DropNothing(d);
    ReadI32(d, 0, SeatAvailabilityMonitoringRequestTag);
    if |e0| + 8 <= |d| {
      ReadI64(d, |e0|, U64AsI64(m.id));
    }
    if |e1| + 4 <= |d| {
      ReadI32(d, |e1|, m.identifier);
    }
    if |e2| + 4 <= |d| {
      ReadI32(d, |e2|, m.monitor_interval_sec);
    }
  }

  /** Decoding the encoding of any SeatAvailabilityMonitoringRequest, followed by anything, recovers its encoded fields and stops where the encoding ends. */
  lemma SeatAvailabilityMonitoringRequestRoundTrip(m: SeatAvailabilityMonitoringRequest, rest: seq<byte>)
    ensures ParseSeatAvailabilityMonitoringRequest(SeatAvailabilityMonitoringRequestBytes(m) + rest) == Decoded(|SeatAvailabilityMonitoringRequestBytes(m)|, Some(SeatAvailabilityMonitoringRequest(m.id, m.identifier, 0, m.monitor_interval_sec)))
  {
    AgreeExtended(SeatAvailabilityMonitoringRequestBytes(m), rest);
    ParseSeatAvailabilityMonitoringRequestAgree(SeatAvailabilityMonitoringRequestBytes(m) + rest, m);
  }

  /** Every proper prefix of the encoding fails to decode with `(0, none)`. */
  lemma SeatAvailabilityMonitoringRequestTruncated(m: SeatAvailabilityMonitoringRequest, k: nat)
    requires k < |SeatAvailabilityMonitoringRequestBytes(m)|
    ensures ParseSeatAvailabilityMonitoringRequest(SeatAvailabilityMonitoringRequestBytes(m)[..k]) == Fail()
  {
    AgreeTruncated(SeatAvailabilityMonitoringRequestBytes(m), k);
    ParseSeatAvailabilityMonitoringRequestAgree(SeatAvailabilityMonitoringRequestBytes(m)[..k], m);
  }

  /** What the decoder accepts is exactly the encoding of the value it returns. */
  lemma ParseSeatAvailabilityMonitoringRequestSound(d: seq<byte>)
    requires ParseSeatAvailabilityMonitoringRequest(d).Ok()
    ensures var r := ParseSeatAvailabilityMonitoringRequest(d); d[..r.consumed] == SeatAvailabilityMonitoringRequestBytes(r.value.value)
  {
    var p0 := 4;
    var id := I64AsU64(I64At(d, p0));
    var p1 := p0 + 8;
    var identifier := I32At(d, p1);
    var p2 := p1 + 4;
    var monitorIntervalSec := I32At(d, p2);
    var p3 := p2 + 4;
    assert ParseSeatAvailabilityMonitoringRequest(d) == Decoded(p3, Some(SeatAvailabilityMonitoringRequest(id, identifier, 0, monitorIntervalSec)));
    I32Back(d, 0);
    TakeFromStart(d, 4);
    I64Back(d, p0);
    PrefixJoin(d, p0, p1, I32Bytes(SeatAvailabilityMonitoringRequestTag), I64Bytes(U64AsI64(id)));
    I32Back(d, p1);
    PrefixJoin(d, p1, p2, I32Bytes(SeatAvailabilityMonitoringRequestTag) + I64Bytes(U64AsI64(id)), I32Bytes(identifier));
    I32Back(d, p2);
    PrefixJoin(d, p2, p3, I32Bytes(SeatAvailabilityMonitoringRequestTag) + I64Bytes(U64AsI64(id)) + I32Bytes(identifier), I32Bytes(monitorIntervalSec));
  }

  // ---------------------------------------------------------------------
  // SeatAvailabilityMonitoringResponse

  /** The outcome of a monitoring registration and the expiry, in seconds since the epoch. */
  datatype SeatAvailabilityMonitoringResponse = SeatAvailabilityMonitoringResponse(
    id: u64,
    status_code: i32,
    message: seq<byte>,
    identifier: i32,
    monitor_end: i64)

  /** Strings and lists short enough for their 4-byte length prefix. */
  predicate ValidSeatAvailabilityMonitoringResponse(m: SeatAvailabilityMonitoringResponse)
  {
    |m.message| < 0x1_0000_0000
  }

  function SeatAvailabilityMonitoringResponseBytes(m: SeatAvailabilityMonitoringResponse): (b: seq<byte>)
    ensures |b| == 4 + 8 + 4 + (4 + |m.message|) + 4 + 8
  {
    I32Bytes(SeatAvailabilityMonitoringResponseTag)
    + I64Bytes(U64AsI64(m.id))
    + I32Bytes(m.status_code)
    + StrBytes(m.message)
    + I32Bytes(m.identifier)
    + I64Bytes(m.monitor_end)
  }

  method MarshalSeatAvailabilityMonitoringResponse(m: SeatAvailabilityMonitoringResponse) returns (data: seq<byte>)
    ensures data == SeatAvailabilityMonitoringResponseBytes(m)
  {
    data := I32Bytes(SeatAvailabilityMonitoringResponseTag);
    data := data + I64Bytes(U64AsI64(m.id));
    data := data + I32Bytes(m.status_code);
    data := data + StrBytes(m.message);
    data := data + I32Bytes(m.identifier);
    data := data + I64Bytes(m.monitor_end);
  }

  function ParseSeatAvailabilityMonitoringResponse(d: seq<byte>): (r: Decoded<SeatAvailabilityMonitoringResponse>)
    ensures r.consumed <= |d|
    ensures r.Ok() ==> HasTag(d, SeatAvailabilityMonitoringResponseTag)
    ensures !r.Ok() ==> r == Fail()
  {
    if |d| < 4 then Fail() else
    if I32At(d, 0) != SeatAvailabilityMonitoringResponseTag then Fail() else
    var p0 := 4;
    if p0 + 8 > |d| then Fail() else
    var id := I64AsU64(I64At(d, p0));
    var p1 := p0 + 8;
    if p1 + 4 > |d| then Fail() else
    var statusCode := I32At(d, p1);
    var p2 := p1 + 4;
    var messageRes := ParseStr(d[p2..]);
    if !messageRes.Ok() then Fail() else
    var p3 := p2 + messageRes.consumed;
    if p3 + 4 > |d| then Fail() else
    var identifier := I32At(d, p3);
    var p4 := p3 + 4;
    if p4 + 8 > |d| then Fail() else
    var monitorEnd := I64At(d, p4);
    var p5 := p4 + 8;
    Decoded(p5, Some(SeatAvailabilityMonitoringResponse(id, statusCode, messageRes.value.value, identifier, monitorEnd)))
  }

  method UnmarshalSeatAvailabilityMonitoringResponse(data: seq<byte>) returns (consumed: nat, response: Option<SeatAvailabilityMonitoringResponse>)
    ensures Decoded(consumed, response) == ParseSeatAvailabilityMonitoringResponse(data)
  {
    if |data| < 4 {
      return 0, None;
    }
    var messageType := I32At(data, 0);
    if messageType != SeatAvailabilityMonitoringResponseTag {
      return 0, None;
    }

    var p := 4;

    if p + 8 > |data| {
      return 0, None;
    }
    var id := I64AsU64(I64At(data, p));
    p := p + 8;

    if p + 4 > |data| {
      return 0, None;
    }
    var statusCode := I32At(data, p);
    p := p + 4;

    var messageRes := ParseStr(data[p..]);
    if !messageRes.Ok() {
      return 0, None;
    }
    var message := messageRes.value.value;
    p := p + messageRes.consumed;

    if p + 4 > |data| {
      return 0, None;
    }
    var identifier := I32At(data, p);
    p := p + 4;

    if p + 8 > |data| {
      return 0, None;
    }
    var monitorEnd := I64At(data, p);
    p := p + 8;

    return p, Some(SeatAvailabilityMonitoringResponse(id, statusCode, message, identifier, monitorEnd));
  }

  lemma ParseSeatAvailabilityMonitoringResponseAgree(d: seq<byte>, m: SeatAvailabilityMonitoringResponse)
    requires ValidSeatAvailabilityMonitoringResponse(m) && Agree(d, SeatAvailabilityMonitoringResponseBytes(m))
    ensures ParseSeatAvailabilityMonitoringResponse(d) ==
      if |SeatAvailabilityMonitoringResponseBytes(m)| <= |d| then Decoded(|SeatAvailabilityMonitoringResponseBytes(m)|, Some(SeatAvailabilityMonitoringResponse(m.id, m.status_code, m.message, m.identifier, m.monitor_end))) else Fail()
  {
    var e0 := I32Bytes(SeatAvailabilityMonitoringResponseTag);
    var e1 := e0 + I64Bytes(U64AsI64(m.id));
    var e2 := e1 + I32Bytes(m.status_code);
    var e3 := e2 + StrBytes(m.message);
    var e4 := e3 + I32Bytes(m.identifier);
    AgreeSplit(d, e4, I64Bytes(m.monitor_end));
    AgreeSplit(d, e3, I32Bytes(m.identifier));
    AgreeSplit(d, e2, StrBytes(m.message));
    AgreeSplit(d, e1, I32Bytes(m.status_code));
    AgreeSplit(d, e0, I64Bytes(U64AsI64(m.id)));
    if |d| < 4 {
      return;
    }
    DropNothing(d);
    ReadI32(d, 0, SeatAvailabilityMonitoringResponseTag);
    if |e0| + 8 <= |d| {
      ReadI64(d, |e0|, U64AsI64(m.id));
    }
    if |e1| + 4 <= |d| {
      ReadI32(d, |e1|, m.status_code);
    }
    if |d| < |e2| {
      return;
    }
    ParseStrAgree(d[|e2|..], m.message);
    if |e3| + 4 <= |d| {
      ReadI32(d, |e3|, m.identifier);
    }
    if |e4| + 8 <= |d| {
      ReadI64(d, |e4|, m.monitor_end);
    }
  }

  /** Decoding the encoding of any SeatAvailabilityMonitoringResponse, followed by anything, recovers its encoded fields and stops where the encoding ends. */
  lemma SeatAvailabilityMonitoringResponseRoundTrip(m: SeatAvailabilityMonitoringResponse, rest: seq<byte>)
    requires ValidSeatAvailabilityMonitoringResponse(m)
    ensures ParseSeatAvailabilityMonitoringResponse(SeatAvailabilityMonitoringResponseBytes(m) + rest) == Decoded(|SeatAvailabilityMonitoringResponseBytes(m)|, Some(SeatAvailabilityMonitoringResponse(m.id, m.status_code, m.message, m.identifier, m.monitor_end)))
  {
    AgreeExtended(SeatAvailabilityMonitoringResponseBytes(m), rest);
    ParseSeatAvailabilityMonitoringResponseAgree(SeatAvailabilityMonitoringResponseBytes(m) + rest, m);
  }

  /** Every proper prefix of the encoding fails to decode with `(0, none)`. */
  lemma SeatAvailabilityMonitoringResponseTruncated(m: SeatAvailabilityMonitoringResponse, k: nat)
    requires ValidSeatAvailabilityMonitoringResponse(m) && k < |SeatAvailabilityMonitoringResponseBytes(m)|
    ensures ParseSeatAvailabilityMonitoringResponse(SeatAvailabilityMonitoringResponseBytes(m)[..k]) == Fail()
  {
    AgreeTruncated(SeatAvailabilityMonitoringResponseBytes(m), k);
    ParseSeatAvailabilityMonitoringResponseAgree(SeatAvailabilityMonitoringResponseBytes(m)[..k], m);
  }

  /** What the decoder accepts is exactly the encoding of the value it returns. */
  lemma ParseSeatAvailabilityMonitoringResponseSound(d: seq<byte>)
    requires ParseSeatAvailabilityMonitoringResponse(d).Ok()
    ensures var r := ParseSeatAvailabilityMonitoringResponse(d); ValidSeatAvailabilityMonitoringResponse(r.value.value) && d[..r.consumed] == SeatAvailabilityMonitoringResponseBytes(r.value.value)
  {
    var p0 := 4;
    var id := I64AsU64(I64At(d, p0));
    var p1 := p0 + 8;
    var statusCode := I32At(d, p1);
    var p2 := p1 + 4;
    var messageRes := ParseStr(d[p2..]);
    var p3 := p2 + messageRes.consumed;
    var identifier := I32At(d, p3);
    var p4 := p3 + 4;
    var monitorEnd := I64At(d, p4);
    var p5 := p4 + 8;
    assert ParseSeatAvailabilityMonitoringResponse(d) == Decoded(p5, Some(SeatAvailabilityMonitoringResponse(id, statusCode, messageRes.value.value, identifier, monitorEnd)));
    I32Back(d, 0);
    TakeFromStart(d, 4);
    I64Back(d, p0);
    PrefixJoin(d, p0, p1, I32Bytes(SeatAvailabilityMonitoringResponseTag), I64Bytes(U64AsI64(id)));
    I32Back(d, p1);
    PrefixJoin(d, p1, p2, I32Bytes(SeatAvailabilityMonitoringResponseTag) + I64Bytes(U64AsI64(id)), I32Bytes(statusCode));
    StrJoin(d, p2, I32Bytes(SeatAvailabilityMonitoringResponseTag) + I64Bytes(U64AsI64(id)) + I32Bytes(statusCode));
    I32Back(d, p3);
    PrefixJoin(d, p3, p4, I32Bytes(SeatAvailabilityMonitoringResponseTag) + I64Bytes(U64AsI64(id)) + I32Bytes(statusCode) + StrBytes(messageRes.value.value), I32Bytes(identifier));
    I64Back(d, p4);
    PrefixJoin(d, p4, p5, I32Bytes(SeatAvailabilityMonitoringResponseTag) + I64Bytes(U64AsI64(id)) + I32Bytes(statusCode) + StrBytes(messageRes.value.value) + I32Bytes(identifier), I64Bytes(monitorEnd));
  }

  // ---------------------------------------------------------------------
  // SeatAvailabilityCallbackRequest

  /** The push sent to a monitoring client: flight `identifier` now has `seat_availability` seats. */
  datatype SeatAvailabilityCallbackRequest = SeatAvailabilityCallbackRequest(
    id: u64,
    identifier: i32,
    seat_availability: i32)

  function SeatAvailabilityCallbackRequestBytes(m: SeatAvailabilityCallbackRequest): (b: seq<byte>)
    ensures |b| == 20
  {
    I32Bytes(SeatAvailabilityCallbackRequestTag)
    + I64Bytes(U64AsI64(m.id))
    + I32Bytes(m.identifier)
    + I32Bytes(m.seat_availability)
  }

  method MarshalSeatAvailabilityCallbackRequest(m: SeatAvailabilityCallbackRequest) returns (data: seq<byte>)
    ensures data == SeatAvailabilityCallbackRequestBytes(m)
  {
    data := I32Bytes(SeatAvailabilityCallbackRequestTag);
    data := data + I64Bytes(U64AsI64(m.id));
    data := data + I32Bytes(m.identifier);
    data := data + I32Bytes(m.seat_availability);
  }

  function ParseSeatAvailabilityCallbackRequest(d: seq<byte>): (r: Decoded<SeatAvailabilityCallbackRequest>)
    ensures r.consumed <= |d|
    ensures r.Ok() ==> HasTag(d, SeatAvailabilityCallbackRequestTag)
    ensures !r.Ok() ==> r == Fail()
  {
    if |d| < 4 then Fail() else
    if I32At(d, 0) != SeatAvailabilityCallbackRequestTag then Fail() else
    var p0 := 4;
    if p0 + 8 > |d| then Fail() else
    var id := I64AsU64(I64At(d, p0));
    var p1 := p0 + 8;
    if p1 + 4 > |d| then Fail() else
    var identifier := I32At(d, p1);
    var p2 := p1 + 4;
    if p2 + 4 > |d| then Fail() else
    var seatAvailability := I32At(d, p2);
    var p3 := p2 + 4;
    Decoded(p3, Some(SeatAvailabilityCallbackRequest(id, identifier, seatAvailability)))
  }

  method UnmarshalSeatAvailabilityCallbackRequest(data: seq<byte>) returns (consumed: nat, request: Option<SeatAvailabilityCallbackRequest>)
    ensures Decoded(consumed, request) == ParseSeatAvailabilityCallbackRequest(data)
  {
    if |data| < 4 {
      return 0, None;
    }
    var messageType := I32At(data, 0);
    if messageType != SeatAvailabilityCallbackRequestTag {
      return 0, None;
    }

    var p := 4;

    if p + 8 > |data| {
      return 0, None;
    }
    var id := I64AsU64(I64At(data, p));
    p := p + 8;

    if p + 4 > |data| {
      return 0, None;
    }
    var identifier := I32At(data, p);
    p := p + 4;

    if p + 4 > |data| {
      return 0, None;
    }
    var seatAvailability := I32At(data, p);
    p := p + 4;

    return p, Some(SeatAvailabilityCallbackRequest(id, identifier, seatAvailability));
  }

  lemma ParseSeatAvailabilityCallbackRequestAgree(d: seq<byte>, m: SeatAvailabilityCallbackRequest)
    requires Agree(d, SeatAvailabilityCallbackRequestBytes(m))
    ensures ParseSeatAvailabilityCallbackRequest(d) ==
      if |SeatAvailabilityCallbackRequestBytes(m)| <= |d| then Decoded(|SeatAvailabilityCallbackRequestBytes(m)|, Some(SeatAvailabilityCallbackRequest(m.id, m.identifier, m.seat_availability))) else Fail()
  {
    var e0 := I32Bytes(SeatAvailabilityCallbackRequestTag);
    var e1 := e0 + I64Bytes(U64AsI64(m.id));
    var e2 := e1 + I32Bytes(m.identifier);
    AgreeSplit(d, e2, I32Bytes(m.seat_availability));
    AgreeSplit(d, e1, I32Bytes(m.identifier));
    AgreeSplit(d, e0, I64Bytes(U64AsI64(m.id)));
    if |d| < 4 {
      return;
    }
    DropNothing(d);
    ReadI32(d, 0, SeatAvailabilityCallbackRequestTag);
    if |e0| + 8 <= |d| {
      ReadI64(d, |e0|, U64AsI64(m.id));
    }
    if |e1| + 4 <= |d| {
      ReadI32(d, |e1|, m.identifier);
    }
    if |e2| + 4 <= |d| {
      ReadI32(d, |e2|, m.seat_availability);
    }
  }

  /** Decoding the encoding of any SeatAvailabilityCallbackRequest, followed by anything, recovers its encoded fields and stops where the encoding ends. */
  lemma SeatAvailabilityCallbackRequestRoundTrip(m: SeatAvailabilityCallbackRequest, rest: seq<byte>)
    ensures ParseSeatAvailabilityCallbackRequest(SeatAvailabilityCallbackRequestBytes(m) + rest) == Decoded(|SeatAvailabilityCallbackRequestBytes(m)|, Some(SeatAvailabilityCallbackRequest(m.id, m.identifier, m.seat_availability)))
  {
    AgreeExtended(SeatAvailabilityCallbackRequestBytes(m), rest);
    ParseSeatAvailabilityCallbackRequestAgree(SeatAvailabilityCallbackRequestBytes(m) + rest, m);
  }

  /** Every proper prefix of the encoding fails to decode with `(0, none)`. */
  lemma SeatAvailabilityCallbackRequestTruncated(m: SeatAvailabilityCallbackRequest, k: nat)
    requires k < |SeatAvailabilityCallbackRequestBytes(m)|
    ensures ParseSeatAvailabilityCallbackRequest(SeatAvailabilityCallbackRequestBytes(m)[..k]) == Fail()
  {
    AgreeTruncated(SeatAvailabilityCallbackRequestBytes(m), k);
    ParseSeatAvailabilityCallbackRequestAgree(SeatAvailabilityCallbackRequestBytes(m)[..k], m);
  }

  /** What the decoder accepts is exactly the encoding of the value it returns. */
  lemma ParseSeatAvailabilityCallbackRequestSound(d: seq<byte>)
    requires ParseSeatAvailabilityCallbackRequest(d).Ok()
    ensures var r := ParseSeatAvailabilityCallbackRequest(d); d[..r.consumed] == SeatAvailabilityCallbackRequestBytes(r.value.value)
  {
    var p0 := 4;
    var id := I64AsU64(I64At(d, p0));
    var p1 := p0 + 8;
    var identifier := I32At(d, p1);
    var p2 := p1 + 4;
    var seatAvailability := I32At(d, p2);
    var p3 := p2 + 4;
    assert ParseSeatAvailabilityCallbackRequest(d) == Decoded(p3, Some(SeatAvailabilityCallbackRequest(id, identifier, seatAvailability)));
    I32Back(d, 0);
    TakeFromStart(d, 4);
    I64Back(d, p0);
    PrefixJoin(d, p0, p1, I32Bytes(SeatAvailabilityCallbackRequestTag), I64Bytes(U64AsI64(id)));
    I32Back(d, p1);
    PrefixJoin(d, p1, p2, I32Bytes(SeatAvailabilityCallbackRequestTag) + I64Bytes(U64AsI64(id)), I32Bytes(identifier));
    I32Back(d, p2);
    PrefixJoin(d, p2, p3, I32Bytes(SeatAvailabilityCallbackRequestTag) + I64Bytes(U64AsI64(id)) + I32Bytes(identifier), I32Bytes(seatAvailability));
  }

  // ---------------------------------------------------------------------
  // SeatAvailabilityCallbackResponse

  /** The monitoring client's acknowledgement of a push. */
  datatype SeatAvailabilityCallbackResponse = SeatAvailabilityCallbackResponse(
    id: u64,
    status_code: i32)

  function SeatAvailabilityCallbackResponseBytes(m: SeatAvailabilityCallbackResponse): (b: seq<byte>)
    ensures |b| == 16
  {
    I32Bytes(SeatAvailabilityCallbackResponseTag)
    + I64Bytes(U64AsI64(m.id))
    + I32Bytes(m.status_code)
  }

  method MarshalSeatAvailabilityCallbackResponse(m: SeatAvailabilityCallbackResponse) returns (data: seq<byte>)
    ensures data == SeatAvailabilityCallbackResponseBytes(m)
  {
    data := I32Bytes(SeatAvailabilityCallbackResponseTag);
    data := data + I64Bytes(U64AsI64(m.id));
    data := data + I32Bytes(m.status_code);
  }

  function ParseSeatAvailabilityCallbackResponse(d: seq<byte>): (r: Decoded<SeatAvailabilityCallbackResponse>)
    ensures r.consumed <= |d|
    ensures r.Ok() ==> HasTag(d, SeatAvailabilityCallbackResponseTag)
    ensures !r.Ok() ==> r == Fail()
  {
    if |d| < 4 then Fail() else
    if I32At(d, 0) != SeatAvailabilityCallbackResponseTag then Fail() else
    var p0 := 4;
    if p0 + 8 > |d| then Fail() else
    var id := I64AsU64(I64At(d, p0));
    var p1 := p0 + 8;
    if p1 + 4 > |d| then Fail() else
    var statusCode := I32At(d, p1);
    var p2 := p1 + 4;
    Decoded(p2, Some(SeatAvailabilityCallbackResponse(id, statusCode)))
  }

  method UnmarshalSeatAvailabilityCallbackResponse(data: seq<byte>) returns (consumed: nat, response: Option<SeatAvailabilityCallbackResponse>)
    ensures Decoded(consumed, response) == ParseSeatAvailabilityCallbackResponse(data)
  {
    if |data| < 4 {
      return 0, None;
    }
    var messageType := I32At(data, 0);
    if messageType != SeatAvailabilityCallbackResponseTag {
      return 0, None;
    }

    var p := 4;

    if p + 8 > |data| {
      return 0, None;
    }
    var id := I64AsU64(I64At(data, p));
    p := p + 8;

    if p + 4 > |data| {
      return 0, None;
    }
    var statusCode := I32At(data, p);
    p := p + 4;

    return p, Some(SeatAvailabilityCallbackResponse(id, statusCode));
  }

  lemma ParseSeatAvailabilityCallbackResponseAgree(d: seq<byte>, m: SeatAvailabilityCallbackResponse)
    requires Agree(d, SeatAvailabilityCallbackResponseBytes(m))
    ensures ParseSeatAvailabilityCallbackResponse(d) ==
      if |SeatAvailabilityCallbackResponseBytes(m)| <= |d| then Decoded(|SeatAvailabilityCallbackResponseBytes(m)|, Some(SeatAvailabilityCallbackResponse(m.id, m.status_code))) else Fail()
  {
    var e0 := I32Bytes(SeatAvailabilityCallbackResponseTag);
    var e1 := e0 + I64Bytes(U64AsI64(m.id));
    AgreeSplit(d, e1, I32Bytes(m.status_code));
    AgreeSplit(d, e0, I64Bytes(U64AsI64(m.id)));
    if |d| < 4 {
      return;
    }
    DropNothing(d);
    ReadI32(d, 0, SeatAvailabilityCallbackResponseTag);
    if |e0| + 8 <= |d| {
      ReadI64(d, |e0|, U64AsI64(m.id));
    }
    if |e1| + 4 <= |d| {
      ReadI32(d, |e1|, m.status_code);
    }
  }

  /** Decoding the encoding of any SeatAvailabilityCallbackResponse, followed by anything, recovers its encoded fields and stops where the encoding ends. */
  lemma SeatAvailabilityCallbackResponseRoundTrip(m: SeatAvailabilityCallbackResponse, rest: seq<byte>)
    ensures ParseSeatAvailabilityCallbackResponse(SeatAvailabilityCallbackResponseBytes(m) + rest) == Decoded(|SeatAvailabilityCallbackResponseBytes(m)|, Some(SeatAvailabilityCallbackResponse(m.id, m.status_code)))
  {
    AgreeExtended(SeatAvailabilityCallbackResponseBytes(m), rest);
    ParseSeatAvailabilityCallbackResponseAgree(SeatAvailabilityCallbackResponseBytes(m) + rest, m);
  }

  /** Every proper prefix of the encoding fails to decode with `(0, none)`. */
  lemma SeatAvailabilityCallbackResponseTruncated(m: SeatAvailabilityCallbackResponse, k: nat)
    requires k < |SeatAvailabilityCallbackResponseBytes(m)|
    ensures ParseSeatAvailabilityCallbackResponse(SeatAvailabilityCallbackResponseBytes(m)[..k]) == Fail()
  {
    AgreeTruncated(SeatAvailabilityCallbackResponseBytes(m), k);
    ParseSeatAvailabilityCallbackResponseAgree(SeatAvailabilityCallbackResponseBytes(m)[..k], m);
  }

  /** What the decoder accepts is exactly the encoding of the value it returns. */
  lemma ParseSeatAvailabilityCallbackResponseSound(d: seq<byte>)
    requires ParseSeatAvailabilityCallbackResponse(d).Ok()
    ensures var r := ParseSeatAvailabilityCallbackResponse(d); d[..r.consumed] == SeatAvailabilityCallbackResponseBytes(r.value.value)
  {
    var p0 := 4;
    var id := I64AsU64(I64At(d, p0));
    var p1 := p0 + 8;
    var statusCode := I32At(d, p1);
    var p2 := p1 + 4;
    assert ParseSeatAvailabilityCallbackResponse(d) == Decoded(p2, Some(SeatAvailabilityCallbackResponse(id, statusCode)));
    I32Back(d, 0);
    TakeFromStart(d, 4);
    I64Back(d, p0);
    PrefixJoin(d, p0, p1, I32Bytes(SeatAvailabilityCallbackResponseTag), I64Bytes(U64AsI64(id)));
    I32Back(d, p1);
    PrefixJoin(d, p1, p2, I32Bytes(SeatAvailabilityCallbackResponseTag) + I64Bytes(U64AsI64(id)), I32Bytes(statusCode));
  }

  /** A buffer that opens with the encoding of tag `t` is accepted by a decoder of this module only if `t` is that decoder's tag. */
  lemma AvailabilityDecodersCheckTag(d: seq<byte>, t: i32)
    requires |d| >= 4 && d[..4] == I32Bytes(t)
    ensures ParseSeatAvailabilityMonitoringRequest(d).Ok() ==> t == SeatAvailabilityMonitoringRequestTag
    ensures ParseSeatAvailabilityMonitoringResponse(d).Ok() ==> t == SeatAvailabilityMonitoringResponseTag
    ensures ParseSeatAvailabilityCallbackRequest(d).Ok() ==> t == SeatAvailabilityCallbackRequestTag
    ensures ParseSeatAvailabilityCallbackResponse(d).Ok() ==> t == SeatAvailabilityCallbackResponseTag
  {
    TagDetermined(d, t, SeatAvailabilityMonitoringRequestTag);
    TagDetermined(d, t, SeatAvailabilityMonitoringResponseTag);
    TagDetermined(d, t, SeatAvailabilityCallbackRequestTag);
    TagDetermined(d, t, SeatAvailabilityCallbackResponseTag);
  }
}
