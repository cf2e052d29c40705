# Distributed flight information system: a verified model

The system is a client and a server that talk over UDP. The client can search flights by route or
by price range, look up one flight, reserve seats, cancel a reservation, and ask to be told about
seat changes on a flight for a while. The server keeps the flights, the reservations and the
monitoring registrations in memory. When the seat count of a monitored flight changes, it pushes
the new count to every client that is still registered. Every message is a flat byte encoding
that opens with a 4-byte message tag. Both sides retry a request up to three times after a
timeout. A process runs under one of two invocation semantics:

- at-least-once: every request that arrives is executed;
- at-most-once: the response to each request id is stored and replayed to retransmissions.

Both sides can simulate the loss of a request or of its response.

This project models the following in Dafny and proves properties of it:

- **The message codecs** (`Wire`, `MessageType`, `Flights`, `FlightInfo`, `FlightSearch`,
  `SeatReservation`, `SeatAvailability`).
  - Each message has an encoding function and a decoding function that returns
    `(bytes consumed, value)`.
  - The imperative `Marshal…`/`Unmarshal…` methods, written the way the source writes them, are
    proved equal to those functions.
  - For every message the model proves:
    - exactness: a buffer that agrees with an encoding decodes to the encoded value exactly when
      the whole encoding is present;
    - the round trip, with any trailing bytes;
    - failure on every truncation;
    - soundness: what a decoder accepts is the encoding of what it returns.
  - It also proves which tags each decoder accepts.
- **The retry loop** (`Transport`). The loop shared by the client's calls and the server's pushes
  is proved against `FirstReply`, the first datagram received within four attempts.
- **The server's handler** (`Service`, `Server`).
  - `Service` is the handler as a pure state machine: tables, per-kind histories, one `Step` per
    received datagram. The properties of the two invocation semantics are proved about it.
  - `Server.FlightServer` is the handler as a class whose fields are the handler's statics. Its
    methods update them in place and are proved equal to the `Service` functions.
  - The search's collect-and-sort loop is proved to return exactly the matching flights in
    identifier order.
  - The callback push thread is a method proved against the retry loop and the acknowledgement
    decoder.
- **The client** (`Client`).
  - `SendAndReceive` is proved against the retry loop.
  - `CallbackListener` is the push handler, with its duplicate-suppressing history. It is proved to
    acknowledge every push it answers, and to replay the stored acknowledgement to a
    retransmission.

The primitive codecs come from a serialization library whose code is not part of this model.
`Wire` fixes one concrete encoding for them:

- integers are little-endian, and signed ones are two's complement;
- a 32-bit float is its four raw bytes;
- a string is a 4-byte length followed by its bytes;
- a list of flights is a 4-byte count followed by the flights.

## Model

| member | source | states |
|---|---|---|
| Flights.MarshalFlight | src/messages/flight.cc:42-65 | returns exactly the specified encoding: identifier, source, destination, departure time, airfare and seat availability, in that order |
| Flights.UnmarshalFlight | src/messages/flight.cc:67-125 | returns the same (bytes consumed, value) pair as the decoding function, `(0, none)` on any short or mistagged buffer |
| Flights.ParseFlight | src/messages/flight.cc:67-125 | fails with exactly `(0, none)` whenever it fails; a success consumes no more bytes than the buffer holds |
| Flights.ParseFlightAgree | src/messages/flight.cc:67-125 | on any buffer that agrees with an encoding as far as both reach, decoding succeeds exactly when the whole encoding is present, and then yields the encoded value and its length |
| Flights.FlightRoundTrip | src/messages/flight.cc:42-65 | decoding the encoding followed by any trailing bytes recovers the flight itself and consumes exactly the encoding for any value whose strings and lists fit their 4-byte length prefix |
| Flights.FlightTruncated | src/messages/flight.cc:67-125 | every proper prefix of an encoding fails to decode with `(0, none)` |
| Flights.ParseFlightSound | src/messages/flight.cc:67-125 | whatever the decoder accepts is exactly the encoding of the value it returns (so the codec has no second spelling of a value) |
| FlightInfo.MarshalFlightInfoRequest | src/messages/flight_info.cc:42-59 | returns exactly the specified encoding: tag and identifier, eight bytes written in place, in that order |
| FlightInfo.UnmarshalFlightInfoRequest | src/messages/flight_info.cc:62-87 | returns the same (bytes consumed, value) pair as the decoding function, `(0, none)` on any short or mistagged buffer |
| FlightInfo.ParseFlightInfoRequest | src/messages/flight_info.cc:62-87 | fails with exactly `(0, none)` whenever it fails, and succeeds only on a buffer of at least 4 bytes whose first 4 bytes are its own tag; a success consumes no more bytes than the buffer holds |
| FlightInfo.ParseFlightInfoRequestAgree | src/messages/flight_info.cc:62-87 | on any buffer that agrees with an encoding as far as both reach, decoding succeeds exactly when the whole encoding is present, and then yields the encoded value and its length |
| FlightInfo.FlightInfoRequestRoundTrip | src/messages/flight_info.cc:42-59 | decoding the encoding followed by any trailing bytes recovers the identifier, with id 0 since the id is never encoded and consumes exactly the encoding for any value |
| FlightInfo.FlightInfoRequestTruncated | src/messages/flight_info.cc:62-87 | every proper prefix of an encoding fails to decode with `(0, none)` |
| FlightInfo.ParseFlightInfoRequestSound | src/messages/flight_info.cc:62-87 | whatever the decoder accepts is exactly the encoding of the value it returns (so the codec has no second spelling of a value) |
| FlightInfo.MarshalFlightInfoResponse | src/messages/flight_info.cc:90-105 | returns exactly the specified encoding: tag, message and a counted list of flights of any length, in that order |
| FlightInfo.UnmarshalFlightInfoResponse | src/messages/flight_info.cc:108-143 | returns the same (bytes consumed, value) pair as the decoding function, `(0, none)` on any short or mistagged buffer |
| FlightInfo.ParseFlightInfoResponse | src/messages/flight_info.cc:108-143 | fails with exactly `(0, none)` whenever it fails, and succeeds only on a buffer of at least 4 bytes whose first 4 bytes are its own tag; a success consumes no more bytes than the buffer holds |
| FlightInfo.ParseFlightInfoResponseAgree | src/messages/flight_info.cc:108-143 | on any buffer that agrees with an encoding as far as both reach, decoding succeeds exactly when the whole encoding is present, and then yields the encoded value and its length |
| FlightInfo.FlightInfoResponseRoundTrip | src/messages/flight_info.cc:90-105 | decoding the encoding followed by any trailing bytes recovers message and flight list, with id and status 0 since neither is encoded and consumes exactly the encoding for any value whose strings and lists fit their 4-byte length prefix |
| FlightInfo.FlightInfoResponseTruncated | src/messages/flight_info.cc:108-143 | every proper prefix of an encoding fails to decode with `(0, none)` |
| FlightInfo.ParseFlightInfoResponseSound | src/messages/flight_info.cc:108-143 | whatever the decoder accepts is exactly the encoding of the value it returns (so the codec has no second spelling of a value) |
| FlightSearch.MarshalFlightSearchRequest | src/messages/flight_search.cc:80-98 | returns exactly the specified encoding: tag, id, source and destination, in that order |
| FlightSearch.UnmarshalFlightSearchRequest | src/messages/flight_search.cc:101-144 | returns the same (bytes consumed, value) pair as the decoding function, `(0, none)` on any short or mistagged buffer |
| FlightSearch.ParseFlightSearchRequest | src/messages/flight_search.cc:101-144 | fails with exactly `(0, none)` whenever it fails, and succeeds only on a buffer of at least 4 bytes whose first 4 bytes are its own tag; a success consumes no more bytes than the buffer holds |
| FlightSearch.ParseFlightSearchRequestAgree | src/messages/flight_search.cc:101-144 | on any buffer that agrees with an encoding as far as both reach, decoding succeeds exactly when the whole encoding is present, and then yields the encoded value and its length |
| FlightSearch.FlightSearchRequestRoundTrip | src/messages/flight_search.cc:80-98 | decoding the encoding followed by any trailing bytes recovers every field and consumes exactly the encoding for any value whose strings and lists fit their 4-byte length prefix |
| FlightSearch.FlightSearchRequestTruncated | src/messages/flight_search.cc:101-144 | every proper prefix of an encoding fails to decode with `(0, none)` |
| FlightSearch.ParseFlightSearchRequestSound | src/messages/flight_search.cc:101-144 | whatever the decoder accepts is exactly the encoding of the value it returns (so the codec has no second spelling of a value) |
| FlightSearch.MarshalFlightSearchResponse | src/messages/flight_search.cc:147-168 | returns exactly the specified encoding: tag, id, status code, message and flight list, in that order |
| FlightSearch.UnmarshalFlightSearchResponse | src/messages/flight_search.cc:171-222 | returns the same (bytes consumed, value) pair as the decoding function, `(0, none)` on any short or mistagged buffer |
| FlightSearch.ParseFlightSearchResponse | src/messages/flight_search.cc:171-222 | fails with exactly `(0, none)` whenever it fails, and succeeds only on a buffer of at least 4 bytes whose first 4 bytes are its own tag; a success consumes no more bytes than the buffer holds |
| FlightSearch.ParseFlightSearchResponseAgree | src/messages/flight_search.cc:171-222 | on any buffer that agrees with an encoding as far as both reach, decoding succeeds exactly when the whole encoding is present, and then yields the encoded value and its length |
| FlightSearch.FlightSearchResponseRoundTrip | src/messages/flight_search.cc:147-168 | decoding the encoding followed by any trailing bytes recovers every field and consumes exactly the encoding for any value whose strings and lists fit their 4-byte length prefix |
| FlightSearch.FlightSearchResponseTruncated | src/messages/flight_search.cc:171-222 | every proper prefix of an encoding fails to decode with `(0, none)` |
| FlightSearch.ParseFlightSearchResponseSound | src/messages/flight_search.cc:171-222 | whatever the decoder accepts is exactly the encoding of the value it returns (so the codec has no second spelling of a value) |
| FlightSearch.MarshalPriceRangeSearchRequest | src/messages/flight_search.cc:225-243 | returns exactly the specified encoding: tag, id and the two float bounds, in that order |
| FlightSearch.UnmarshalPriceRangeSearchRequest | src/messages/flight_search.cc:246-287 | returns the same (bytes consumed, value) pair as the decoding function, `(0, none)` on any short or mistagged buffer |
| FlightSearch.ParsePriceRangeSearchRequest | src/messages/flight_search.cc:246-287 | fails with exactly `(0, none)` whenever it fails, and succeeds only on a buffer of at least 4 bytes whose first 4 bytes are its own tag; a success consumes no more bytes than the buffer holds |
| FlightSearch.ParsePriceRangeSearchRequestAgree | src/messages/flight_search.cc:246-287 | on any buffer that agrees with an encoding as far as both reach, decoding succeeds exactly when the whole encoding is present, and then yields the encoded value and its length |
| FlightSearch.PriceRangeSearchRequestRoundTrip | src/messages/flight_search.cc:225-243 | decoding the encoding followed by any trailing bytes recovers every field and consumes exactly the encoding for any value |
| FlightSearch.PriceRangeSearchRequestTruncated | src/messages/flight_search.cc:246-287 | every proper prefix of an encoding fails to decode with `(0, none)` |
| FlightSearch.ParsePriceRangeSearchRequestSound | src/messages/flight_search.cc:246-287 | whatever the decoder accepts is exactly the encoding of the value it returns (so the codec has no second spelling of a value) |
| FlightSearch.MarshalPriceRangeSearchResponse | src/messages/flight_search.cc:290-311 | returns exactly the specified encoding: tag, id, status code, message and flight list, in that order |
| FlightSearch.UnmarshalPriceRangeSearchResponse | src/messages/flight_search.cc:314-365 | returns the same (bytes consumed, value) pair as the decoding function, `(0, none)` on any short or mistagged buffer |
| FlightSearch.ParsePriceRangeSearchResponse | src/messages/flight_search.cc:314-365 | fails with exactly `(0, none)` whenever it fails, and succeeds only on a buffer of at least 4 bytes whose first 4 bytes are its own tag; a success consumes no more bytes than the buffer holds |
| FlightSearch.ParsePriceRangeSearchResponseAgree | src/messages/flight_search.cc:314-365 | on any buffer that agrees with an encoding as far as both reach, decoding succeeds exactly when the whole encoding is present, and then yields the encoded value and its length |
| FlightSearch.PriceRangeSearchResponseRoundTrip | src/messages/flight_search.cc:290-311 | decoding the encoding followed by any trailing bytes recovers every field and consumes exactly the encoding for any value whose strings and lists fit their 4-byte length prefix |
| FlightSearch.PriceRangeSearchResponseTruncated | src/messages/flight_search.cc:314-365 | every proper prefix of an encoding fails to decode with `(0, none)` |
| FlightSearch.ParsePriceRangeSearchResponseSound | src/messages/flight_search.cc:314-365 | whatever the decoder accepts is exactly the encoding of the value it returns (so the codec has no second spelling of a value) |
| SeatReservation.MarshalSeatReservationRequest | src/messages/seat_reservation.cc:43-61 | returns exactly the specified encoding: tag, id, identifier and seats, in that order |
| SeatReservation.UnmarshalSeatReservationRequest | src/messages/seat_reservation.cc:64-105 | returns the same (bytes consumed, value) pair as the decoding function, `(0, none)` on any short or mistagged buffer |
| SeatReservation.ParseSeatReservationRequest | src/messages/seat_reservation.cc:64-105 | fails with exactly `(0, none)` whenever it fails, and succeeds only on a buffer of at least 4 bytes whose first 4 bytes are its own tag; a success consumes no more bytes than the buffer holds |
| SeatReservation.ParseSeatReservationRequestAgree | src/messages/seat_reservation.cc:64-105 | on any buffer that agrees with an encoding as far as both reach, decoding succeeds exactly when the whole encoding is present, and then yields the encoded value and its length |
| SeatReservation.SeatReservationRequestRoundTrip | src/messages/seat_reservation.cc:43-61 | decoding the encoding followed by any trailing bytes recovers every field and consumes exactly the encoding for any value |
| SeatReservation.SeatReservationRequestTruncated | src/messages/seat_reservation.cc:64-105 | every proper prefix of an encoding fails to decode with `(0, none)` |
| SeatReservation.ParseSeatReservationRequestSound | src/messages/seat_reservation.cc:64-105 | whatever the decoder accepts is exactly the encoding of the value it returns (so the codec has no second spelling of a value) |
| SeatReservation.MarshalSeatReservationResponse | src/messages/seat_reservation.cc:108-132 | returns exactly the specified encoding: tag, id, status code, message, identifier and seats, in that order |
| SeatReservation.UnmarshalSeatReservationResponse | src/messages/seat_reservation.cc:135-193 | returns the same (bytes consumed, value) pair as the decoding function, `(0, none)` on any short or mistagged buffer |
| SeatReservation.ParseSeatReservationResponse | src/messages/seat_reservation.cc:135-193 | fails with exactly `(0, none)` whenever it fails, and succeeds only on a buffer of at least 4 bytes whose first 4 bytes are its own tag; a success consumes no more bytes than the buffer holds |
| SeatReservation.ParseSeatReservationResponseAgree | src/messages/seat_reservation.cc:135-193 | on any buffer that agrees with an encoding as far as both reach, decoding succeeds exactly when the whole encoding is present, and then yields the encoded value and its length |
| SeatReservation.SeatReservationResponseRoundTrip | src/messages/seat_reservation.cc:108-132 | decoding the encoding followed by any trailing bytes recovers every field and consumes exactly the encoding for any value whose strings and lists fit their 4-byte length prefix |
| SeatReservation.SeatReservationResponseTruncated | src/messages/seat_reservation.cc:135-193 | every proper prefix of an encoding fails to decode with `(0, none)` |
| SeatReservation.ParseSeatReservationResponseSound | src/messages/seat_reservation.cc:135-193 | whatever the decoder accepts is exactly the encoding of the value it returns (so the codec has no second spelling of a value) |
| SeatAvailability.MarshalSeatAvailabilityMonitoringRequest | src/messages/seat_availability.cc:63-83 | returns exactly the specified encoding: tag, id (as an i64), identifier and interval, in that order |
| SeatAvailability.UnmarshalSeatAvailabilityMonitoringRequest | src/messages/seat_availability.cc:87-129 | returns the same (bytes consumed, value) pair as the decoding function, `(0, none)` on any short or mistagged buffer |
| SeatAvailability.ParseSeatAvailabilityMonitoringRequest | src/messages/seat_availability.cc:87-129 | fails with exactly `(0, none)` whenever it fails, and succeeds only on a buffer of at least 4 bytes whose first 4 bytes are its own tag; a success consumes no more bytes than the buffer holds |
| SeatAvailability.ParseSeatAvailabilityMonitoringRequestAgree | src/messages/seat_availability.cc:87-129 | on any buffer that agrees with an encoding as far as both reach, decoding succeeds exactly when the whole encoding is present, and then yields the encoded value and its length |
| SeatAvailability.SeatAvailabilityMonitoringRequestRoundTrip | src/messages/seat_availability.cc:63-83 | decoding the encoding followed by any trailing bytes recovers every field but the port, which comes back 0 since it is never encoded and consumes exactly the encoding for any value |
| SeatAvailability.SeatAvailabilityMonitoringRequestTruncated | src/messages/seat_availability.cc:87-129 | every proper prefix of an encoding fails to decode with `(0, none)` |
| SeatAvailability.ParseSeatAvailabilityMonitoringRequestSound | src/messages/seat_availability.cc:87-129 | whatever the decoder accepts is exactly the encoding of the value it returns (so the codec has no second spelling of a value) |
| SeatAvailability.MarshalSeatAvailabilityMonitoringResponse | src/messages/seat_availability.cc:132-157 | returns exactly the specified encoding: tag, id, status code, message, identifier and monitoring end, in that order |
| SeatAvailability.UnmarshalSeatAvailabilityMonitoringResponse | src/messages/seat_availability.cc:161-219 | returns the same (bytes consumed, value) pair as the decoding function, `(0, none)` on any short or mistagged buffer |
| SeatAvailability.ParseSeatAvailabilityMonitoringResponse | src/messages/seat_availability.cc:161-219 | fails with exactly `(0, none)` whenever it fails, and succeeds only on a buffer of at least 4 bytes whose first 4 bytes are its own tag; a success consumes no more bytes than the buffer holds |
| SeatAvailability.ParseSeatAvailabilityMonitoringResponseAgree | src/messages/seat_availability.cc:161-219 | on any buffer that agrees with an encoding as far as both reach, decoding succeeds exactly when the whole encoding is present, and then yields the encoded value and its length |
| SeatAvailability.SeatAvailabilityMonitoringResponseRoundTrip | src/messages/seat_availability.cc:132-157 | decoding the encoding followed by any trailing bytes recovers every field and consumes exactly the encoding for any value whose strings and lists fit their 4-byte length prefix |
| SeatAvailability.SeatAvailabilityMonitoringResponseTruncated | src/messages/seat_availability.cc:161-219 | every proper prefix of an encoding fails to decode with `(0, none)` |
| SeatAvailability.ParseSeatAvailabilityMonitoringResponseSound | src/messages/seat_availability.cc:161-219 | whatever the decoder accepts is exactly the encoding of the value it returns (so the codec has no second spelling of a value) |
| SeatAvailability.MarshalSeatAvailabilityCallbackRequest | src/messages/seat_availability.cc:222-241 | returns exactly the specified encoding: tag, id (as an i64), identifier and seat availability, in that order |
| SeatAvailability.UnmarshalSeatAvailabilityCallbackRequest | src/messages/seat_availability.cc:245-287 | returns the same (bytes consumed, value) pair as the decoding function, `(0, none)` on any short or mistagged buffer |
| SeatAvailability.ParseSeatAvailabilityCallbackRequest | src/messages/seat_availability.cc:245-287 | fails with exactly `(0, none)` whenever it fails, and succeeds only on a buffer of at least 4 bytes whose first 4 bytes are its own tag; a success consumes no more bytes than the buffer holds |
| SeatAvailability.ParseSeatAvailabilityCallbackRequestAgree | src/messages/seat_availability.cc:245-287 | on any buffer that agrees with an encoding as far as both reach, decoding succeeds exactly when the whole encoding is present, and then yields the encoded value and its length |
| SeatAvailability.SeatAvailabilityCallbackRequestRoundTrip | src/messages/seat_availability.cc:222-241 | decoding the encoding followed by any trailing bytes recovers every field and consumes exactly the encoding for any value |
| SeatAvailability.SeatAvailabilityCallbackRequestTruncated | src/messages/seat_availability.cc:245-287 | every proper prefix of an encoding fails to decode with `(0, none)` |
| SeatAvailability.ParseSeatAvailabilityCallbackRequestSound | src/messages/seat_availability.cc:245-287 | whatever the decoder accepts is exactly the encoding of the value it returns (so the codec has no second spelling of a value) |
| SeatAvailability.MarshalSeatAvailabilityCallbackResponse | src/messages/seat_availability.cc:290-306 | returns exactly the specified encoding: tag, id and status code, in that order |
| SeatAvailability.UnmarshalSeatAvailabilityCallbackResponse | src/messages/seat_availability.cc:310-343 | returns the same (bytes consumed, value) pair as the decoding function, `(0, none)` on any short or mistagged buffer |
| SeatAvailability.ParseSeatAvailabilityCallbackResponse | src/messages/seat_availability.cc:310-343 | fails with exactly `(0, none)` whenever it fails, and succeeds only on a buffer of at least 4 bytes whose first 4 bytes are its own tag; a success consumes no more bytes than the buffer holds |
| SeatAvailability.ParseSeatAvailabilityCallbackResponseAgree | src/messages/seat_availability.cc:310-343 | on any buffer that agrees with an encoding as far as both reach, decoding succeeds exactly when the whole encoding is present, and then yields the encoded value and its length |
| SeatAvailability.SeatAvailabilityCallbackResponseRoundTrip | src/messages/seat_availability.cc:290-306 | decoding the encoding followed by any trailing bytes recovers every field and consumes exactly the encoding for any value |
| SeatAvailability.SeatAvailabilityCallbackResponseTruncated | src/messages/seat_availability.cc:310-343 | every proper prefix of an encoding fails to decode with `(0, none)` |
| SeatAvailability.ParseSeatAvailabilityCallbackResponseSound | src/messages/seat_availability.cc:310-343 | whatever the decoder accepts is exactly the encoding of the value it returns (so the codec has no second spelling of a value) |
| Flights.FlightEquals | src/messages/flight.cc:22-28 | field-by-field equality with the airfare compared as a float: the same as equality of flights when the airfare is neither a NaN nor a zero; never true when either airfare is a NaN; and true for two zero airfares of either sign when every other field is equal |
| Flights.FlightEqualsNotIdentity | src/messages/flight.cc:26 | a flight with a NaN airfare is not equal to itself, and two flights differing only in +0.0 and -0.0 airfare are equal though different values |
| Flights.ParseFlightList | src/messages/flight_info.cc:131 | fails with exactly `(0, none)` whenever it fails; a success consumes no more bytes than the buffer holds |
| Flights.ParseFlightListAgree | src/messages/flight_info.cc:131 | a buffer agreeing with a counted list of flights decodes to that list exactly when the whole list is present |
| Flights.ParseFlightListSound | src/messages/flight_info.cc:131 | whatever the list decoder accepts is exactly the counted encoding of the flights it returns, each within the length bounds |
| Flights.FlightCodecExact | src/messages/flight.cc:67-125 | the flight decoder is exact for every valid flight at the head of any agreeing buffer, the premise the list decoder needs |
| FlightInfo.InfoDecodersCheckTag | src/messages/flight_info.cc:62-87 | a buffer opening with tag `t` is accepted by the info request or response decoder only if `t` is that decoder's tag |
| FlightSearch.PriceRangeReadAsFlightSearch | src/messages/flight_search.cc:101-144 | the flight-search decoder accepts a price-range request exactly when both bounds are +0.0, and then reads it as a search with empty source and destination |
| FlightSearch.SearchResponsesInterchangeable | src/messages/flight_search.cc:290-311 | the two search responses have the same encoding, so either decoder reads the other's response field for field |
| FlightSearch.SearchDecodersCheckTag | src/messages/flight_search.cc:101-144 | a buffer opening with tag `t` is accepted by each of the four search decoders only if `t` is that decoder's tag |
| SeatReservation.ReservationDecodersCheckTag | src/messages/seat_reservation.cc:64-105 | a buffer opening with tag `t` is accepted by the reservation request or response decoder only if `t` is that decoder's tag |
| SeatAvailability.AvailabilityDecodersCheckTag | src/messages/seat_availability.cc:87-129 | a buffer opening with tag `t` is accepted by each of the four availability decoders only if `t` is that decoder's tag |
| MessageType.TagDetermined | src/messages/message_type.h:8-19 | a buffer carries a given message tag exactly when the integer encoded in its first four bytes is that tag |
| Wire.I32RoundTrip | src/messages/flight.cc:46-47 | reading back the 4-byte encoding of any i32 gives the same i32 |
| Wire.I64RoundTrip | src/messages/flight.cc:55-56 | reading back the 8-byte encoding of any i64 gives the same i64 |
| Wire.I32Canonical | src/messages/flight.cc:74-75 | every 4-byte pattern is the encoding of the i32 read from it |
| Wire.IdAsI64RoundTrip | src/messages/seat_availability.cc:72 | a u64 id written as an i64 has the same bytes as the u64 and is read back unchanged |
| Wire.StrRoundTrip | src/messages/flight.cc:49-53 | decoding a length-prefixed string followed by anything recovers the string and consumes its prefix and bytes |
| Wire.ParseStrSound | src/messages/flight.cc:78-84 | whatever the string decoder accepts is exactly the length-prefixed encoding of the string it returns |
| Wire.WriteI32 | src/messages/flight_info.cc:48-56 | writes the 4-byte encoding over the buffer at the given offset and leaves every other byte alone |
| Wire.Wrap32 | src/server/main.cc:370 | the 32-bit result of an addition or subtraction: the exact value when it fits, otherwise congruent to it modulo 2^32 |
| Wire.LittleEndianRoundTrip | src/messages/flight.cc:46-47 | reading back the n-byte little-endian encoding of any value below 256^n gives that value |
| Wire.ParseVector | src/messages/flight_info.cc:131 | fails with exactly `(0, none)` whenever it fails; a success consumes no more bytes than the buffer holds |
| Wire.ParseVectorAgree | src/messages/flight_info.cc:131 | a counted list decoder built from an exact element decoder is exact for the counted list |
| Wire.ParseVectorSound | src/messages/flight_info.cc:131 | a counted list decoder built from a sound element decoder accepts only counted encodings of lists |
| Transport.FirstReplyFrom | src/client/main.cc:89-103 | the reply the retry loop stops on is the first received datagram at or after the given attempt, with all earlier attempts timed out; none when every attempt timed out |
| Transport.FirstReplyIsFirstDatagram | src/client/main.cc:89-103 | when the n-th receive is the first datagram after timeouts, the loop stops after attempt n + 1 with that datagram |
| Transport.SendWithRetries | src/server/main.cc:99-122 | sends the same bytes once per attempt, at most `RetryTimes + 1` times; gives up after every attempt times out; otherwise stops at the first received datagram and returns it |
| Service.FlightTable | src/server/main.cc:38-58 | every start-up flight's identifier is in the table, every entry is a start-up flight, and each is filed under its own identifier |
| Service.Initial | src/server/main.cc:161-169 | the first call starts from the start-up flights with no registrations, no reservations and valid tables |
| Service.WithFlight | src/server/main.cc:636 | after indexing a flight map by an identifier the identifier is present, as `operator[]` inserts a default flight |
| Service.LeastExists | src/server/main.cc:221-224 | every non-empty set of identifiers has a least element |
| Service.MinKey | src/server/main.cc:221-224 | returns the least identifier of a non-empty set |
| Service.InKeyOrderSorted | src/server/main.cc:215-224 | listing the flights of a set of identifiers in key order gives a strictly ascending list holding exactly those flights |
| Service.SearchResultsExact | src/server/main.cc:215-224 | the search results are strictly ascending by identifier and hold a flight exactly when it is in the table with the requested source and destination |
| Service.InsertById | src/server/main.cc:221-224 | inserting a flight adds exactly that flight to the multiset of the list |
| Service.InsertByIdAscending | src/server/main.cc:221-224 | inserting into an ascending list keeps it ascending |
| Service.SortedUnique | src/server/main.cc:221-224 | an ascending list and a strictly ascending list with the same elements are equal, so the sorted search results are determined |
| Service.InfoResponse | src/server/main.cc:285-299 | the server's reply lists at most one flight: status 0 with exactly the stored flight when the identifier is in the table; otherwise status 1 and an empty list; the id is the request's |
| Service.Pushes | src/server/main.cc:382-398 | at most one push per registration |
| Service.PushesExact | src/server/main.cc:382-398 | a push is produced exactly for each registration whose monitoring end is still in the future, to its address, carrying the update; there are as many pushes as live registrations, so a client registered twice is pushed twice |
| Service.PushesCount | src/server/main.cc:387-397 | the number of pushes equals the number of positions in the registration list whose monitoring end is after `now` |
| Service.PushesAppend | src/server/main.cc:387-397 | the pushes for two registration lists one after the other are the pushes for the first followed by those for the second |
| Service.ReservationRefused | src/server/main.cc:352-367 | an unknown flight is refused with status 1 and too few seats with status 2; neither changes any table or pushes anything |
| Service.ReservationAccepted | src/server/main.cc:368-398 | an accepted reservation subtracts the seats (wrapping at 32 bits), files the reservation unless its id is already filed, keeps the registrations, pushes the new availability to every live registration of the flight, and keeps the tables valid |
| Service.CancellationRefused | src/server/main.cc:619-642 | an unknown reservation is refused with status 1, a flight mismatch with status 2 and too many seats with status 3, each changing nothing |
| Service.CancellationAccepted | src/server/main.cc:643-674 | an accepted cancellation gives the seats back to the flight, takes them off the reservation, keeps the registrations, pushes the new availability and keeps the tables valid |
| Service.ReserveThenCancelRestores | src/server/main.cc:352-674 | reserving seats and then cancelling all of them restores every flight's availability and leaves a reservation of zero seats |
| Service.Compute | src/server/main.cc:179-680 | the reply computed for a request is always the response kind that answers that request kind |
| Service.ReserveKeepsValid | src/server/main.cc:352-380 | a reservation keeps every flight filed under its own identifier |
| Service.CancelKeepsValid | src/server/main.cc:619-656 | a cancellation keeps every flight filed under its own identifier |
| Service.ComputeKeepsValid | src/server/main.cc:179-680 | handling any request keeps every flight filed under its own identifier |
| Service.RecordStores | src/server/main.cc:236-238 | after recording a reply for a request, the history knows the request id and returns that reply |
| Service.StepKeepsValid | src/server/main.cc:146-698 | one call of the handler, whatever it receives, keeps every flight filed under its own identifier |
| Service.NothingServed | src/server/main.cc:171-195 | a receive error, an undecodable datagram or a request drawn as lost changes nothing and sends nothing |
| Service.AtMostOnceReplays | src/server/main.cc:198-211 | under at-most-once a request whose id is in the history is answered with the stored reply (or nothing, if the reply is drawn as lost) and changes nothing |
| Service.AtMostOnceRecords | src/server/main.cc:236-244 | under at-most-once a new request is recorded, and the reply sent is the one recorded, even when that reply is lost |
| Service.AtLeastOnceKeepsNoHistory | src/server/main.cc:236-238 | under at-least-once the history never changes |
| Service.AtLeastOnceIgnoresHistory | src/server/main.cc:198-199 | under at-least-once the history is never read: two states with the same tables get the same reply, pushes and new tables whatever their histories hold |
| Service.RetransmissionHasNoEffect | src/server/main.cc:198-244 | under at-most-once a retransmitted request changes no state, starts no pushes and gets the reply recorded for the first copy |
| Service.AtLeastOnceReservesTwice | src/server/main.cc:318-403 | under at-least-once a retransmitted reservation is carried out twice, taking the seats twice |
| Service.InfoRequestIdIsZero | src/messages/flight_info.cc:62-87 | every info request the server decodes has id 0 |
| Service.InfoRepliesAreStale | src/server/main.cc:273-283 | under at-most-once, once any info request has been answered, every later info request gets that first reply, whatever flight it asks for |
| Service.MonitoringRegisters | src/server/main.cc:455-488 | a monitoring request for a known flight appends a registration at the caller's address and the request's port until now plus the interval, with status 0; an unknown flight gets status 1 and changes nothing |
| Service.MonitoringPortIsZero | src/messages/seat_availability.cc:87-129 | every monitoring request the server decodes has port 0, so pushes go to port 0 |
| Service.PriceRangeMisrouted | src/server/main.cc:179-507 | a price-range request is dispatched as a price-range search, except when both bounds are +0.0, when it is served as a flight search with empty source and destination |
| Service.SearchDispatched | src/server/main.cc:179 | the encoding of any flight-search request is dispatched as that request |
| Service.InfoDispatched | src/server/main.cc:254 | the encoding of any info request is dispatched as that request with id 0 |
| Service.ReservationDispatched | src/server/main.cc:318 | the encoding of any reservation request is dispatched as that request |
| Service.MonitoringDispatched | src/server/main.cc:420 | the encoding of any monitoring request is dispatched as that request with port 0 |
| Server.DistinctCount | src/server/main.cc:215-220 | in a list of flights with distinct identifiers, each flight occurs once or not at all |
| Server.SameFlights | src/server/main.cc:215-220 | two lists of distinct flights with the same members have the same multiset |
| Server.SortByIdentifier | src/server/main.cc:221-224 | returns the flights ascending by identifier and a permutation of the input |
| Server.SearchFlights | src/server/main.cc:213-224 | collects the matching flights and sorts them, returning exactly the search results |
| Server.CollectPushes | src/server/main.cc:382-398 | walks the registrations and returns exactly the pushes owed to live ones, in order |
| Server.SendSeatAvailabilityCallbackRequest | src/server/main.cc:86-144 | no send when no client could be created; otherwise the update with a fresh id is sent once per attempt, at most four times; gives up after four timeouts; an undecodable reply is invalid, status 0 is acknowledged and any other status is a rejection |
| Server.PushDecodes | src/server/main.cc:97-102 | every datagram the push sends decodes to the update with the fresh id |
| Server.FlightServer.constructor | src/server/main.cc:161-169 | the state after the first call's initialisation is the initial state of the start-up flights, and it is valid |
| Server.FlightServer.ReserveSeats | src/server/main.cc:352-403 | updates the tables and returns the response and pushes exactly as the reservation specification does; the history is untouched |
| Server.FlightServer.RegisterCallback | src/server/main.cc:455-488 | updates the registrations and returns the response exactly as the monitoring specification does |
| Server.FlightServer.CancelSeats | src/server/main.cc:619-674 | updates the tables and returns the response and pushes exactly as the cancellation specification does |
| Server.FlightServer.ComputeReply | src/server/main.cc:179-680 | updates the tables and returns the reply and pushes exactly as `Compute` |
| Server.FlightServer.ServeRequest | src/server/main.cc:179-690 | applies the loss draws, the replay and the recording exactly as `Handle` |
| Server.FlightServer.Serve | src/server/main.cc:146-698 | one call of the handler takes the state to `Step` of the old state and returns its reply and pushes; the tables stay valid |
| Server.Decode | src/server/main.cc:179-584 | tries the decoders in the server's order and returns exactly `Classify` of the datagram |
| Client.SendAndReceive | src/client/main.cc:82-119 | stamps the request with a fresh id and sends the same encoding once per attempt, at most four times; none after four timeouts; otherwise the decoding of the first reply, none if it does not decode |
| Client.UndecodableReplyNotRetried | src/client/main.cc:110-114 | a first reply that does not decode ends the call after one attempt with no response |
| Client.ReplyAfterTimeouts | src/client/main.cc:89-103 | a reply received after n timeouts is the one returned, on attempt n + 1 |
| Client.CallbackListener.constructor | src/client/main.cc:138-141 | the listener starts with an empty history |
| Client.CallbackListener.Serve | src/client/main.cc:121-186 | updates the history and returns what is shown and the reply sent exactly as `CallbackStep` |
| Client.CallbackStepKeepsAcknowledged | src/client/main.cc:168-174 | every stored response acknowledges its own request with status 0, before and after any call |
| Client.EveryReplyAcknowledges | src/client/main.cc:155-186 | every reply the listener sends decodes to an acknowledgement of the push it showed |
| Client.CallbackNothingServed | src/client/main.cc:124-153 | a receive error, an undecodable datagram or a push drawn as lost gets no reply and changes no history |
| Client.CallbackRecordedEvenIfResponseLost | src/client/main.cc:168-180 | under at-most-once a new push is recorded even when its reply is lost; under at-least-once nothing is recorded |
| Client.CallbackRetransmissionReplayed | src/client/main.cc:155-166 | under at-most-once a retransmitted push changes nothing, is shown again and is answered with the stored acknowledgement |
| Client.PushAcknowledged | src/server/main.cc:97-139 | a push the server sends, if neither loss draw drops it, is shown to the user and answered with an acknowledgement that the server's decoder reads as status 0 for the push's fresh id |
| Transport.FirstReply | src/client/main.cc:89-108 | the attempt the retry loop stops on and the datagram it received there: the first received datagram, all earlier attempts having timed out; none when all four attempts time out |
| Service.PriceRangeResponse | src/server/main.cc:541-564 | the response carries the request's id and exactly the flights the selection picks for the request's bounds; status 0 exactly when that list is non-empty, otherwise status 1 and the message `Flights not found` |
| Service.SearchResponse | src/server/main.cc:213-235 | the response carries the request's id; status 0 exactly when the list of flights is non-empty, otherwise status 1 and the message `Flights not found` |
| Service.SearchResponseExact | src/server/main.cc:213-235 | a search succeeds exactly when some flight in the table has the requested source and destination, and then lists every such flight once, ascending by identifier |
| Service.Reserve | src/server/main.cc:352-398 | the response carries the request's id and flight; status 0 exactly when the flight exists and has at least the requested seats, and then the response reports those seats and no flight is added or removed; any other status changes no table, pushes nothing and reports no seats |
| Service.Monitor | src/server/main.cc:455-488 | the response carries the request's id; status 0 exactly when the flight exists; the flights and reservations never change; an unknown flight gets status 1 and changes nothing |
| Service.Cancel | src/server/main.cc:619-674 | the response carries the request's id; status 0 exactly when the reservation exists, names the same flight and holds at least the seats to cancel; any other status pushes nothing, reports no seats and changes no reservation or registration |
| Service.Classify | src/server/main.cc:179-584 | a datagram is served as a search, info, reservation, monitoring or price-range request only if it opens with that request's tag; nothing is served when the cancellation decoder also fails |
| Service.Record | src/server/main.cc:236-238 | recording a reply never forgets a request id already in the history, and a reply of the wrong kind records nothing |
| Service.Answer | src/server/main.cc:213-244 | a request that is neither lost nor a replay gets a reply exactly when the response is not drawn as lost, and that reply answers the request's kind; under at-least-once the history is untouched |
| Service.Handle | src/server/main.cc:189-244 | a request drawn as lost changes nothing and gets no reply; any reply answers the request's kind; under at-least-once the history is untouched |
| Service.Step | src/server/main.cc:146-698 | a receive error changes nothing; a reply is sent only for a datagram that decodes to a request, and it answers that request's kind; under at-least-once the history is untouched |
| Client.CallbackStep | src/client/main.cc:121-186 | a receive error changes nothing; a reply is sent only for a decoded push that survives both loss draws; under at-least-once the history is untouched; no id is ever dropped from the history |

## Left out

- **Sockets, threads, sleeping and logging.**
  - The model does not send or receive anything. Each call takes its inputs as parameters:
    - a receive outcome (`Received`), or the four receive outcomes of a retry loop;
    - the peer's address;
    - the two loss draws of `RandomLoss`, as `LossDraw`;
    - the clock, as whole seconds.
  - Pushes are returned as a list instead of being started on detached threads.
  - `RandomDelay` and all console output are left out. The client listener's `shown` output
    only records which push would be printed.
- **Fresh ids.** `MakeMessageIdentifier` is not part of this model. Its result is the `freshId`
  parameter.
- **The race between handler calls and push threads.** The handler's statics are not locked
  (src/server/main.cc:361). Each call is modelled as atomic.
- **Reading the start-up file.** `ReadFlightsFromFile` (src/server/main.cc:38-58) parses a text
  file; the model leaves that parsing out. `Server.FlightServer.constructor` takes the parsed
  flights in file order and emplaces them as the loop does, so the first flight with a given
  identifier wins.
- Service.PriceRangeResponse: the price-range search compares and sorts 32-bit floats
  (src/server/main.cc:541-553). The model does not model float arithmetic. That selection is a
  `PriceRangeSelection` parameter. Its wrapping into the response (src/server/main.cc:554-564)
  is modelled and stated; nothing is proved about which flights the selection picks or in what
  order.
- **The cancellation messages.** Their encoding and decoding are not part of this model: their
  declarations and codec live in files that are not part of it.
  - `Server.FlightServer.Serve` takes what the cancellation decoder makes of the datagram as the
    `cancel` parameter. That decoder is consulted last, as in the source.
  - The cancellation response is returned as a record.
- Server.FlightServer.Serve: returns the response as a `Reply` record rather than as bytes. The
  marshalling at the end of each branch is the corresponding `Marshal…` method, which is proved
  separately.
- **Timestamp formatting** and the `<<` operators are left out. Their only effect is on output.
- **Time arithmetic.** Monitoring ends are whole seconds: `now + monitor_interval_sec`. The source
  keeps a `time_point` and sends its seconds (src/server/main.cc:466-469). Sub-second precision
  is not modelled.
- Service.Reserve: an overflowing `seat_availability -= seats` (src/server/main.cc:370) is modelled
  as 32-bit two's-complement wrap-around (`Wire.Wrap32`). In C++ a signed overflow is undefined;
  the model states only the wrap.
- Service.Cancel: the same holds for `reservation.seats -= seats` and
  `seat_availability += seats` (src/server/main.cc:645 and 649), both wrapped by `Wire.Wrap32`.

## Where the declarations and the code disagree

The model follows the `.cc` code where it disagrees with a header, with one deliberate exception:
the flight list of the search responses.

- **Reservation id and status missing from the header.** src/messages/seat_reservation.h:18-35
  declares neither `id` nor `status_code` for the reservation messages. The codec in
  src/messages/seat_reservation.cc encodes both, and src/server/main.cc:354-355 sets them. The
  model includes both fields.
- **Info messages never encode their id or status.** `FlightInfoRequest` and `FlightInfoResponse`
  declare `id` (and the response `status_code`), but their codecs never encode these fields, so
  they decode as 0. As a consequence:
  - every info request the server decodes has id 0 (`Service.InfoRequestIdIsZero`);
  - under at-most-once, every info request after the first is answered with the first reply,
    whatever flight it asks for (`Service.InfoRepliesAreStale`).
- **Search responses: flights or integers.** The search responses' `flights` is a `vector<i32>`
  both in the header (src/messages/flight_search.h:28-60) and in the codec itself, which marshals
  and unmarshals it as a list of i32 (src/messages/flight_search.cc:164, 208, 307 and 351). The
  server, however, fills it with whole `Flight` records (src/server/main.cc:213-224), and so does
  the messages test. The two cannot both be right. The model deliberately follows the server and
  the test: the codec encodes a list of flights, with the same count prefix as `FlightInfoResponse`.
- **Price-range requests are sometimes misrouted.** `PriceRangeSearchRequest` reuses the
  flight-search tag (src/messages/flight_search.h:42). The server tries the flight-search decoder
  first. That decoder reads a price-range request as a flight search with empty strings exactly
  when both bounds are +0.0 (`FlightSearch.PriceRangeReadAsFlightSearch`,
  `Service.PriceRangeMisrouted`).
- **The monitoring port is never encoded.** `SeatAvailabilityMonitoringRequest.port` is declared
  but never encoded. Every registration built from a decoded request therefore has port 0
  (`Service.MonitoringPortIsZero`).
- **No retry after an undecodable reply.** `SendAndReceive` retries only when a receive fails
  (src/client/main.cc:89-103). A reply that arrives but does not decode ends the call at once
  with no result (src/client/main.cc:110-114); the request is not sent again
  (`Client.UndecodableReplyNotRetried`).
