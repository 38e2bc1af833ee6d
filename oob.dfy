/**
  The out-of-band (OOB) module of the relay: the request record exchanged
  between peers, the check applied to peer addresses, the reply the OOB
  server forms, and the table that correlates an outgoing request with the
  response that a co-located server session hands back to its waiter.
 */
module Oob {
  import opened Wrappers

  // ---------------------------------------------------------------------
  // Messages
  // ---------------------------------------------------------------------

  /** The request record sent to a peer: a correlation id and the payload
      (the hostname to resolve). It is taken as already decoded. */
  datatype OobMessage = OobMessage(requestId: string, data: string)

  // ---------------------------------------------------------------------
  // Peer-address check: the pattern ^[a-fA-F0-9:]+$
  // ---------------------------------------------------------------------

  /** One character of the class [a-fA-F0-9:]. */
  predicate IsAddressChar(c: char) {
    ('0' <= c <= '9') || ('a' <= c <= 'f') || ('A' <= c <= 'F') || c == ':'
  }

  /** Matches `address` against the anchored pattern: one or more
      characters of the class, and nothing else from start to end. */
  function IsValidYggdrasilAddress(address: string): (matched: bool)
    ensures matched <==> address != [] && forall i :: 0 <= i < |address| ==> IsAddressChar(address[i])
  {
    && address != []
    && IsAddressChar(address[0])
    && (|address| == 1 || IsValidYggdrasilAddress(address[1..]))
  }

  /** The addresses the module's own demonstration uses are both refused,
      as is the empty address; an address of hex groups and colons passes. */
  lemma DemoAddressesRejected()
    ensures !IsValidYggdrasilAddress("ygg_peer1")
    ensures !IsValidYggdrasilAddress("ygg_peer2")
    ensures !IsValidYggdrasilAddress("")
    ensures IsValidYggdrasilAddress("200:db8::1")
  {
    assert !IsAddressChar("ygg_peer1"[0]);
    assert !IsAddressChar("ygg_peer2"[0]);
  }

  // ---------------------------------------------------------------------
  // The server's reply
  // ---------------------------------------------------------------------

  const AckPrefix: string := "ACK: "

  /** The acknowledgement the OOB server writes back for a request whose
      payload is `data`, and hands to a local waiter. */
  function AckReply(data: string): (reply: string)
    ensures |reply| == |AckPrefix| + |data|
    ensures reply[..|AckPrefix|] == AckPrefix && reply[|AckPrefix|..] == data
  {
    AckPrefix + data
  }

  /** Reads the payload back out of an acknowledgement, or None when the
      text does not start with the prefix. */
  function AckPayload(reply: string): (data: Option<string>)
    ensures data.Some? <==> |reply| >= |AckPrefix| && reply[..|AckPrefix|] == AckPrefix
  {
    if |reply| >= |AckPrefix| && reply[..|AckPrefix|] == AckPrefix
    then Some(reply[|AckPrefix|..])
    else None
  }

  /** The acknowledgement carries its payload unmodified. */
  lemma AckRoundTrip(data: string)
    ensures AckPayload(AckReply(data)) == Some(data)
  {
  }

  /** Every acknowledgement is the reply to exactly one payload. */
  lemma AckPayloadInverse(reply: string, data: string)
    requires AckPayload(reply) == Some(data)
    ensures AckReply(data) == reply
  {
    assert reply == reply[..|AckPrefix|] + reply[|AckPrefix|..];
  }

  /** Distinct payloads give distinct acknowledgements. */
  lemma AckReplyInjective(d1: string, d2: string)
    requires AckReply(d1) == AckReply(d2)
    ensures d1 == d2
  {
    AckRoundTrip(d1);
    AckRoundTrip(d2);
  }

  // ---------------------------------------------------------------------
  // The request table, as values
  // ---------------------------------------------------------------------

  /** Request id to its capacity-one response slot: None is an empty slot,
      Some(r) a slot holding the response r. */
  type RequestSlots = map<string, Option<string>>

  /** What a waiter observes: the response in its slot, or the timer. */
  datatype WaitResult = Received(response: string) | TimedOut

  /** A delivery to `id` succeeds: the id is present and its slot empty. */
  predicate SlotOpen(slots: RequestSlots, id: string) {
    id in slots && slots[id].None?
  }

  /** The table after a non-blocking send of `response` to `id`'s slot:
      filled when open, otherwise the response is dropped. */
  function AfterDeliver(slots: RequestSlots, id: string, response: string): RequestSlots {
    if SlotOpen(slots, id) then slots[id := Some(response)] else slots
  }

  /** The table after `id` is registered: an empty slot under `id`. */
  function AfterRegister(slots: RequestSlots, id: string): RequestSlots {
    slots[id := None]
  }

  /** The table after `id`'s entry is deleted. */
  function AfterRemove(slots: RequestSlots, id: string): RequestSlots {
    slots - {id}
  }

  /** What a waiter on `id` takes from its slot, in a run where nothing
      further is delivered while it waits. */
  function Awaited(slots: RequestSlots, id: string): WaitResult
    requires id in slots
  {
    match slots[id]
    case Some(r) => Received(r)
    case None => TimedOut
  }

  /** `RequestTable.Register`: registering leaves every other id as it was
      and puts an empty slot under `id`, replacing any slot already there. */
  lemma RegisterReplacesOnlyItsOwnSlot(slots: RequestSlots, id: string)
    ensures SlotOpen(AfterRegister(slots, id), id)
    ensures forall k :: k != id ==> (k in AfterRegister(slots, id) <==> k in slots)
    ensures forall k :: k != id && k in slots ==> AfterRegister(slots, id)[k] == slots[k]
  {
  }

  /** `RequestTable.Deliver` into an open slot stores exactly the response
      and closes the slot; other ids are untouched. */
  lemma DeliverFillsOpenSlot(slots: RequestSlots, id: string, response: string)
    requires SlotOpen(slots, id)
    ensures AfterDeliver(slots, id, response) == slots[id := Some(response)]
    ensures !SlotOpen(AfterDeliver(slots, id, response), id)
  {
  }

  /** `RequestTable.Deliver` to a full slot, or to an id with no entry
      (never registered or already removed), changes nothing. */
  lemma DeliverToClosedSlotIsNoOp(slots: RequestSlots, id: string, response: string)
    requires !SlotOpen(slots, id)
    ensures AfterDeliver(slots, id, response) == slots
  {
  }

  /** Once `RequestTable.Remove` has deleted an id, a late delivery to it
      is a no-op. */
  lemma DeliverAfterRemoveIsNoOp(slots: RequestSlots, id: string, response: string)
    ensures AfterDeliver(AfterRemove(slots, id), id, response) == AfterRemove(slots, id)
  {
  }

  /** Register, deliver, await: the waiter observes the delivered response
      unmodified. */
  lemma RegisterDeliverAwait(slots: RequestSlots, id: string, response: string)
    ensures id in AfterDeliver(AfterRegister(slots, id), id, response)
    ensures Awaited(AfterDeliver(AfterRegister(slots, id), id, response), id) == Received(response)
  {
  }

  /** Register and await with no delivery in between: the wait ends on the
      timer. */
  lemma RegisterAwaitTimesOut(slots: RequestSlots, id: string)
    ensures id in AfterRegister(slots, id)
    ensures Awaited(AfterRegister(slots, id), id) == TimedOut
  {
  }

  /** Sends `responses` to `id` one after another; gives the final table
      and how many of the sends were accepted. */
  function DeliverAll(slots: RequestSlots, id: string, responses: seq<string>): (RequestSlots, nat)
    decreases |responses|
  {
    if responses == [] then (slots, 0)
    else
      var accepted := if SlotOpen(slots, id) then 1 else 0;
      var (rest, n) := DeliverAll(AfterDeliver(slots, id, responses[0]), id, responses[1..]);
      (rest, accepted + n)
  }

  /** Any number of sends to a closed slot are all dropped. */
  lemma {:induction false} DeliverAllToClosedSlot(slots: RequestSlots, id: string, responses: seq<string>)
    requires !SlotOpen(slots, id)
    ensures DeliverAll(slots, id, responses) == (slots, 0)
    decreases |responses|
  {
    if responses != [] {
      DeliverAllToClosedSlot(slots, id, responses[1..]);
    }
  }

  /** At most one delivery per waiter: of any non-empty series of sends to
      an open slot exactly one is accepted, and the slot keeps the first. */
  lemma {:induction false} FirstDeliveryWins(slots: RequestSlots, id: string, responses: seq<string>)
    requires SlotOpen(slots, id) && responses != []
    ensures DeliverAll(slots, id, responses) == (slots[id := Some(responses[0])], 1)
  {
    var filled := slots[id := Some(responses[0])];
    assert AfterDeliver(slots, id, responses[0]) == filled;
    DeliverAllToClosedSlot(filled, id, responses[1..]);
  }

  // ---------------------------------------------------------------------
  // The request table, updated in place
  // ---------------------------------------------------------------------

  /** The shared map from request id to response slot. */
  class RequestTable {
    var slots: RequestSlots

    /** An empty table. */
    constructor ()
      ensures slots == map[]
    {
      slots := map[];
    }

    /** Stores a fresh empty slot under `id`; an existing slot under the
        same id is replaced, not refused. */
    method Register(id: string)
      modifies this
      ensures slots == AfterRegister(old(slots), id)
    {
      slots := slots[id := None];
    }

    /** Deletes `id`'s entry, if any. */
    method Remove(id: string)
      modifies this
      ensures slots == AfterRemove(old(slots), id)
    {
      slots := slots - {id};
    }

    /** Looks `id` up and tries a non-blocking send of `response` into its
        slot; the response is dropped when the id is absent or the slot
        already holds a value. */
    method Deliver(id: string, response: string) returns (delivered: bool)
      modifies this
      ensures delivered <==> SlotOpen(old(slots), id)
      ensures slots == AfterDeliver(old(slots), id, response)
    {
      delivered := false;
      if id in slots {
        match slots[id]
        case None =>
          slots := slots[id := Some(response)];
          delivered := true;
        case Some(_) =>
      }
    }

    /** The waiter's select: takes the response from `id`'s slot when one
        is there (emptying it); otherwise no sender is left to run, so the
        wait ends on the timer. */
    method Await(id: string) returns (result: WaitResult)
      requires id in slots
      modifies this
      ensures result == Awaited(old(slots), id)
      ensures slots == old(slots)[id := None]
    {
      match slots[id]
      case Some(r) =>
        result := Received(r);
        slots := slots[id := None];
      case None =>
        result := TimedOut;
    }
  }

  // ---------------------------------------------------------------------
  // Client and server operations
  // ---------------------------------------------------------------------

  /** Why an outgoing OOB request failed. */
  datatype SendError =
    | InvalidAddress(peer: string)
    | DialFailed(peer: string)
    | WriteFailed
    | Timeout

  /** The session served while a client waits carries that client's id. */
  predicate Answered(duringWait: Option<OobMessage>, requestId: string) {
    duringWait.Some? && duringWait.value.requestId == requestId
  }

  /** The OOB module: the configured peers and the shared request table. */
  class OobModule {
    const peers: seq<string>
    const requestMap: RequestTable

    /** A module for `peers` with an empty request table. */
    constructor (peers: seq<string>)
      ensures this.peers == peers
      ensures fresh(requestMap) && requestMap.slots == map[]
    {
      this.peers := peers;
      requestMap := new RequestTable();
    }

    /** Serves one inbound session. `received` is the decoded request, or
        None when the read or the decoding failed, in which case nothing is
        replied and the table is untouched. Otherwise the reply is the
        acknowledgement of the payload, and the same text is offered to a
        local waiter registered under the request's id. */
    method HandleOobSession(received: Option<OobMessage>) returns (reply: Option<string>)
      modifies requestMap
      ensures received.None? ==> reply == None && requestMap.slots == old(requestMap.slots)
      ensures received.Some? ==> reply == Some(AckReply(received.value.data))
      ensures received.Some? ==>
        requestMap.slots == AfterDeliver(old(requestMap.slots), received.value.requestId, reply.value)
    {
      if received.None? {
        return None;
      }
      var message := received.value;
      var response := AckReply(message.data);
      reply := Some(response);
      var _ := requestMap.Deliver(message.requestId, response);
    }

    /** Sends `data` to `peer` under `requestId` and waits for the
        correlated response. `dialOk` and `writeOk` stand for the outcome
        of opening the overlay connection and of writing the request;
        `duringWait` is the inbound session, if any, that the co-located
        server completes while the client waits (the only path by which a
        response reaches the waiter). */
    method SendOobRequest(peer: string, requestId: string, data: string,
                          dialOk: bool, writeOk: bool, duringWait: Option<OobMessage>)
      returns (result: Result<string, SendError>)
      modifies requestMap
      ensures !IsValidYggdrasilAddress(peer) ==> result == Failure(InvalidAddress(peer))
      ensures IsValidYggdrasilAddress(peer) && !dialOk ==> result == Failure(DialFailed(peer))
      ensures IsValidYggdrasilAddress(peer) && dialOk && !writeOk ==> result == Failure(WriteFailed)
      ensures !(IsValidYggdrasilAddress(peer) && dialOk && writeOk) ==>
        requestMap.slots == old(requestMap.slots)
      ensures IsValidYggdrasilAddress(peer) && dialOk && writeOk ==> requestId !in requestMap.slots
      ensures IsValidYggdrasilAddress(peer) && dialOk && writeOk && Answered(duringWait, requestId) ==>
        && result == Success(AckReply(duringWait.value.data))
        && requestMap.slots == old(requestMap.slots) - {requestId}
      ensures IsValidYggdrasilAddress(peer) && dialOk && writeOk && duringWait.None? ==>
        && result == Failure(Timeout)
        && requestMap.slots == old(requestMap.slots) - {requestId}
      ensures IsValidYggdrasilAddress(peer) && dialOk && writeOk && duringWait.Some? && !Answered(duringWait, requestId) ==>
        && result == Failure(Timeout)
        && requestMap.slots == AfterDeliver(old(requestMap.slots), duringWait.value.requestId,
                                            AckReply(duringWait.value.data)) - {requestId}
    {
      if !IsValidYggdrasilAddress(peer) {
        return Failure(InvalidAddress(peer));
      }
      if !dialOk {
        return Failure(DialFailed(peer));
      }
      if !writeOk {
        return Failure(WriteFailed);
      }
      ghost var before := requestMap.slots;
      requestMap.Register(requestId);
      if duringWait.Some? {
        var _ := HandleOobSession(duringWait);
      }
      var waited := requestMap.Await(requestId);
      requestMap.Remove(requestId);
      if duringWait.Some? && duringWait.value.requestId != requestId {
        var m := duringWait.value;
        assert requestMap.slots == AfterDeliver(before, m.requestId, AckReply(m.data)) - {requestId} by {
          var mid := AfterDeliver(before[requestId := None], m.requestId, AckReply(m.data));
          assert mid - {requestId} == AfterDeliver(before, m.requestId, AckReply(m.data)) - {requestId};
        }
      }
      match waited
      case Received(response) =>
        result := Success(response);
      case TimedOut =>
        result := Failure(Timeout);
    }
  }
}
