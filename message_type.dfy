/**
 * The message type tags that open every top-level message, and the two
 * invocation semantics a process can be started with.
 */
module MessageType {
  import opened Wire

  const FlightSearchRequestTag: i32 := 1
  const FlightSearchResponseTag: i32 := 2
  const FlightInfoRequestTag: i32 := 3
  const FlightInfoResponseTag: i32 := 4
  const SeatReservationRequestTag: i32 := 5
  const SeatReservationResponseTag: i32 := 6
  const SeatAvailabilityMonitoringRequestTag: i32 := 7
  const SeatAvailabilityMonitoringResponseTag: i32 := 8
  const SeatAvailabilityCallbackRequestTag: i32 := 9
  const SeatAvailabilityCallbackResponseTag: i32 := 10

  /** The price-range messages carry no tag of their own: they reuse the flight-search tags. */
  const PriceRangeSearchRequestTag: i32 := FlightSearchRequestTag
  const PriceRangeSearchResponseTag: i32 := FlightSearchResponseTag

  datatype InvocationSemantic = AtLeastOnce | AtMostOnce

  /** The tag check every top-level decoder starts with. */
  predicate HasTag(d: seq<byte>, tag: i32)
  {
    |d| >= 4 && I32At(d, 0) == tag
  }

  /** A buffer that starts with the encoding of tag `t` carries no other tag. */
  lemma TagDetermined(d: seq<byte>, t: i32, tag: i32)
    requires |d| >= 4 && d[..4] == I32Bytes(t)
    ensures HasTag(d, tag) <==> t == tag
  {
    I32RoundTrip(t);
  }
}
