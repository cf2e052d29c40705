/**
 * The parts of the datagram transport and of the fault injector that the
 * model takes as inputs: what one receive produced, the peer's address, and
 * the two loss draws made for every served request.
 */
module Transport {
  import opened Wire

  /** The outcome of one receive: an error (socket error or timeout) or the bytes received. */
  datatype Received = RecvError | Datagram(bytes: seq<byte>)

  datatype Protocol = IPv4 | IPv6

  datatype SocketAddress = SocketAddress(protocol: Protocol, address: string, port: u16)

  /**
   * The two fault-injector draws made before a request is served: whether
   * the request is treated as lost (probability 0.1 in the source) and whether
   * the response is (probability 0.2).
   */
  datatype LossDraw = LossDraw(requestLost: bool, responseLost: bool)

  /** The number of retransmissions after the first attempt, in both retry loops. */
  const RetryTimes: nat := 3

  /**
   * The first datagram among the receive outcomes from index `i` on, paired
   * with the number of attempts made when it arrived.
   */
  function FirstReplyFrom(exchanges: seq<Received>, i: nat): (r: Option<(nat, seq<byte>)>)
    decreases |exchanges| - i
    ensures r.Some? ==> i < r.value.0 <= |exchanges| && exchanges[r.value.0 - 1] == Datagram(r.value.1)
    ensures r.Some? ==> forall j :: i <= j < r.value.0 - 1 ==> exchanges[j].RecvError?
    ensures r.None? ==> forall j :: i <= j < |exchanges| ==> exchanges[j].RecvError?
  {
    if i >= |exchanges| then None
    else if exchanges[i].Datagram? then Some((i + 1, exchanges[i].bytes))
    else FirstReplyFrom(exchanges, i + 1)
  }

  /** The first datagram received, with the number of attempts it took. */
  function FirstReply(exchanges: seq<Received>): (r: Option<(nat, seq<byte>)>)
    ensures r.Some? ==> 1 <= r.value.0 <= |exchanges| && exchanges[r.value.0 - 1] == Datagram(r.value.1)
    ensures r.Some? ==> forall j :: 0 <= j < r.value.0 - 1 ==> exchanges[j].RecvError?
    ensures r.None? ==> forall j :: 0 <= j < |exchanges| ==> exchanges[j].RecvError?
  {
    FirstReplyFrom(exchanges, 0)
  }

  /** The first datagram ends the exchange, whatever follows it. */
  lemma {:induction false} FirstReplyIsFirstDatagram(exchanges: seq<Received>, i: nat, n: nat)
    requires n < |exchanges| && exchanges[n].Datagram? && i <= n
    requires forall j :: i <= j < n ==> exchanges[j].RecvError?
    ensures FirstReplyFrom(exchanges, i) == Some((n + 1, exchanges[n].bytes))
    decreases n - i
  {
    if i < n {
      FirstReplyIsFirstDatagram(exchanges, i + 1, n);
    }
  }

  /**
   * The retry loop shared by the client's requests and the server's pushes:
   * send `data`, wait for one reply, and on a receive error (a timeout
   * included) send it again, at most `RetryTimes` more times.
   * `exchanges[i]` is what the receive after the `i`-th send produced.
   * The request is not changed between attempts, so every retransmission
   * carries the same bytes and the same request id.
   */
  method SendWithRetries(data: seq<byte>, exchanges: seq<Received>) returns (reply: Option<seq<byte>>, sent: seq<seq<byte>>)
    requires |exchanges| == RetryTimes + 1
    ensures 1 <= |sent| <= RetryTimes + 1
    ensures forall m :: m in sent ==> m == data
    ensures FirstReply(exchanges).None? ==> reply.None? && |sent| == RetryTimes + 1
    ensures FirstReply(exchanges).Some? ==> reply == Some(FirstReply(exchanges).value.1) && |sent| == FirstReply(exchanges).value.0
  {
    sent := [];
    reply := None;
    var attempt := 0;
    while attempt <= RetryTimes
      invariant attempt <= RetryTimes + 1
      invariant |sent| == attempt && forall m :: m in sent ==> m == data
      invariant FirstReplyFrom(exchanges, attempt) == FirstReply(exchanges)
    {
      sent := sent + [data];
      var received := exchanges[attempt];
      if received.RecvError? {
        attempt := attempt + 1;
        continue;
      }
      reply := Some(received.bytes);
      return;
    }
  }
}

