/**
 * The client's side of the protocol: the request-response call with
 * retransmissions, and the handler that answers the server's seat
 * availability pushes, with its own at-most-once history.
 */
module Client {
  import opened Wire
  import opened MessageType
  import opened Transport
  import opened SeatAvailability

  // ---------------------------------------------------------------------
  // Calling the server

  /**
   * One remote call: give the request a fresh id (`withId` sets it), send
   * its encoding with retries, and decode the first reply. A reply that
   * does not decode ends the call with no result; it is not retried.
   */
  method SendAndReceive<Req, Res>(request: Req, freshId: u64, withId: (Req, u64) -> Req, encode: Req -> seq<byte>,
                                  parse: seq<byte> -> Decoded<Res>, exchanges: seq<Received>)
    returns (response: Option<Res>, sent: seq<seq<byte>>)
    requires |exchanges| == RetryTimes + 1
    ensures 1 <= |sent| <= RetryTimes + 1
    ensures forall m :: m in sent ==> m == encode(withId(request, freshId))
    ensures FirstReply(exchanges).None? ==> response.None? && |sent| == RetryTimes + 1
    ensures FirstReply(exchanges).Some? ==>
      response == parse(FirstReply(exchanges).value.1).value && |sent| == FirstReply(exchanges).value.0
  {
    var req := withId(request, freshId);
    var data := encode(req);
    var reply;
    reply, sent := SendWithRetries(data, exchanges);
    if reply.None? {
      return None, sent;
    }
    var decoded := parse(reply.value);
    response := decoded.value;
  }

  /**
   * A first reply that does not decode is final: the call returns nothing
   * after a single send, even if a good reply would have followed.
   */
  lemma UndecodableReplyNotRetried<Res>(parse: seq<byte> -> Decoded<Res>, exchanges: seq<Received>)
    requires |exchanges| == RetryTimes + 1 && exchanges[0].Datagram? && parse(exchanges[0].bytes).value.None?
    ensures FirstReply(exchanges) == Some((1, exchanges[0].bytes))
    ensures parse(FirstReply(exchanges).value.1).value.None?
  {
    FirstReplyIsFirstDatagram(exchanges, 0, 0);
  }

  /** A reply received after `n` timeouts ends the call after `n + 1` sends. */
  lemma ReplyAfterTimeouts(exchanges: seq<Received>, n: nat)
    requires n < |exchanges| && exchanges[n].Datagram?
    requires forall j :: 0 <= j < n ==> exchanges[j].RecvError?
    ensures FirstReply(exchanges) == Some((n + 1, exchanges[n].bytes))
  {
    FirstReplyIsFirstDatagram(exchanges, 0, n);
  }

  // ---------------------------------------------------------------------
  // Answering pushes

  /** The handler's history: the request and the acknowledgement, by request id. */
  type CallbackHistory = map<u64, (SeatAvailabilityCallbackRequest, SeatAvailabilityCallbackResponse)>

  /**
   * What one call of the handler produces: the new history, the push shown
   * to the user (every push that decodes is shown, duplicates and dropped
   * ones included) and the encoded acknowledgement, if one is sent.
   */
  datatype ListenerOutcome = ListenerOutcome(
    history: CallbackHistory,
    shown: Option<SeatAvailabilityCallbackRequest>,
    reply: Option<seq<byte>>)

  /** The acknowledgement of a push: its id and status 0. */
  function Ack(req: SeatAvailabilityCallbackRequest): SeatAvailabilityCallbackResponse
  {
    SeatAvailabilityCallbackResponse(req.id, 0)
  }

  /** The acknowledgement unless the response-loss draw drops it. */
  function Sent(res: SeatAvailabilityCallbackResponse, loss: LossDraw): Option<seq<byte>>
  {
    if loss.responseLost then None else Some(SeatAvailabilityCallbackResponseBytes(res))
  }

  /** One call of the push handler. */
  function CallbackStep(h: CallbackHistory, semantic: InvocationSemantic, received: Received, loss: LossDraw): (r: ListenerOutcome)
    ensures received.RecvError? ==> r == ListenerOutcome(h, None, None)
    ensures r.reply.Some? ==> r.shown.Some? && !loss.requestLost && !loss.responseLost
    ensures semantic == AtLeastOnce ==> r.history == h
    ensures h.Keys <= r.history.Keys
  {
    if received.RecvError? then ListenerOutcome(h, None, None) else
    var decoded := ParseSeatAvailabilityCallbackRequest(received.bytes);
    if decoded.value.None? then ListenerOutcome(h, None, None) else
    var req := decoded.value.value;
    if loss.requestLost then ListenerOutcome(h, Some(req), None)
    else if semantic == AtMostOnce && req.id in h then ListenerOutcome(h, Some(req), Sent(h[req.id].1, loss))
    else
      var h' := if semantic == AtMostOnce then h[req.id := (req, Ack(req))] else h;
      ListenerOutcome(h', Some(req), Sent(Ack(req), loss))
  }

  /** Every stored pair is a push filed under its own id with its acknowledgement. */
  predicate Acknowledged(h: CallbackHistory)
  {
    forall id :: id in h ==> h[id].0.id == id && h[id].1 == Ack(h[id].0)
  }

  /** The handler's static state: the history, kept across calls. */
  class CallbackListener {
    var history: CallbackHistory

    constructor ()
      ensures history == map[]
    {
      history := map[];
    }

    /**
     * One call: a receive error or a datagram that is not a push is
     * dropped; otherwise the push is shown, and then the request-loss draw,
     * the replay check, the history update and the response-loss draw
     * decide what is sent back.
     */
    method Serve(semantic: InvocationSemantic, received: Received, loss: LossDraw)
      returns (shown: Option<SeatAvailabilityCallbackRequest>, reply: Option<seq<byte>>)
      modifies this
      ensures ListenerOutcome(history, shown, reply) == CallbackStep(old(history), semantic, received, loss)
    {
      if received.RecvError? {
        return None, None;
      }
      var _, request := UnmarshalSeatAvailabilityCallbackRequest(received.bytes);
      if request.None? {
        return None, None;
      }
      var req := request.value;
      shown := Some(req);
      if loss.requestLost {
        return shown, None;
      }
      if semantic == AtMostOnce && req.id in history {
        var res := history[req.id].1;
        if loss.responseLost {
          return shown, None;
        }
        var data := MarshalSeatAvailabilityCallbackResponse(res);
        return shown, Some(data);
      }
      var res := SeatAvailabilityCallbackResponse(req.id, 0);
      if semantic == AtMostOnce {
        history := history[req.id := (req, res)];
      }
      if loss.responseLost {
        return shown, None;
      }
      var data := MarshalSeatAvailabilityCallbackResponse(res);
      reply := Some(data);
    }
  }

  // ---------------------------------------------------------------------
  // Properties of the push handler

  /** The handler keeps every stored acknowledgement matched to its push. */
  lemma CallbackStepKeepsAcknowledged(h: CallbackHistory, semantic: InvocationSemantic, received: Received, loss: LossDraw)
    requires Acknowledged(h)
    ensures Acknowledged(CallbackStep(h, semantic, received, loss).history)
  {
  }

  /**
   * Every reply, fresh or replayed, decodes to an acknowledgement of the
   * push just received: its id and status 0.
   */
  lemma EveryReplyAcknowledges(h: CallbackHistory, semantic: InvocationSemantic, received: Received, loss: LossDraw)
    requires Acknowledged(h)
    ensures var o := CallbackStep(h, semantic, received, loss);
      o.reply.Some? ==> o.shown.Some? && ParseSeatAvailabilityCallbackResponse(o.reply.value).value == Some(Ack(o.shown.value))
  {
    var o := CallbackStep(h, semantic, received, loss);
    if o.reply.Some? {
      SeatAvailabilityCallbackResponseRoundTrip(Ack(o.shown.value), []);
      assert SeatAvailabilityCallbackResponseBytes(Ack(o.shown.value)) + [] == o.reply.value;
    }
  }

  /** Nothing comes back and nothing is stored for a failed receive, a datagram that is not a push, or a lost request. */
  lemma CallbackNothingServed(h: CallbackHistory, semantic: InvocationSemantic, received: Received, loss: LossDraw)
    requires received.RecvError? || ParseSeatAvailabilityCallbackRequest(received.bytes).value.None? || loss.requestLost
    ensures CallbackStep(h, semantic, received, loss).reply.None?
    ensures CallbackStep(h, semantic, received, loss).history == h
  {
  }

  /**
   * Under at-most-once a new push is stored before the response-loss draw,
   * so it is stored even when its acknowledgement is lost; under
   * at-least-once the history is never written.
   */
  lemma CallbackRecordedEvenIfResponseLost(h: CallbackHistory, semantic: InvocationSemantic, req: SeatAvailabilityCallbackRequest,
                                           d: seq<byte>, loss: LossDraw)
    requires ParseSeatAvailabilityCallbackRequest(d).value == Some(req)
    requires !loss.requestLost && req.id !in h
    ensures semantic == AtMostOnce ==> CallbackStep(h, semantic, Datagram(d), loss).history == h[req.id := (req, Ack(req))]
    ensures semantic == AtLeastOnce ==> CallbackStep(h, semantic, Datagram(d), loss).history == h
  {
  }

  /**
   * Under at-most-once a retransmitted push is answered from the history:
   * the second call changes nothing and sends the same acknowledgement.
   */
  lemma CallbackRetransmissionReplayed(h: CallbackHistory, d: seq<byte>, loss1: LossDraw, loss2: LossDraw)
    requires !loss1.requestLost && !loss2.requestLost && !loss2.responseLost
    requires ParseSeatAvailabilityCallbackRequest(d).value.Some?
    ensures var first := CallbackStep(h, AtMostOnce, Datagram(d), loss1);
      var second := CallbackStep(first.history, AtMostOnce, Datagram(d), loss2);
      && second.history == first.history
      && second.shown == first.shown
      && second.reply == Some(SeatAvailabilityCallbackResponseBytes(first.history[first.shown.value.id].1))
  {
  }

  /**
   * The end-to-end delivery of a push: the datagram the server's pushing
   * thread sends is shown to the user as the update it carries, under the
   * thread's fresh id, and unless a loss draw intervenes the reply decodes
   * to status 0, which the pushing thread counts as acknowledged.
   */
  lemma PushAcknowledged(h: CallbackHistory, semantic: InvocationSemantic, update: SeatAvailabilityCallbackRequest, freshId: u64,
                         loss: LossDraw)
    requires Acknowledged(h) && !loss.requestLost && !loss.responseLost
    ensures var o := CallbackStep(h, semantic, Datagram(SeatAvailabilityCallbackRequestBytes(update.(id := freshId))), loss);
      && o.shown == Some(update.(id := freshId))
      && o.reply.Some?
      && ParseSeatAvailabilityCallbackResponse(o.reply.value).value == Some(SeatAvailabilityCallbackResponse(freshId, 0))
  {
    var d := SeatAvailabilityCallbackRequestBytes(update.(id := freshId));
    SeatAvailabilityCallbackRequestRoundTrip(update.(id := freshId), []);
    assert d + [] == d;
    EveryReplyAcknowledges(h, semantic, Datagram(d), loss);
  }
}
