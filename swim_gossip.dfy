/** Gossip dissemination: outgoing Ping and Ack messages carry the next
    events of the buffer, and each event arriving on a message is added to
    the buffer and, when it is new, reported to the cluster. */
module SwimGossipModule {
  import opened Common
  import opened SwimMessages
  import opened EventBuffer
  import IpEndPoint
  import SwimOptions

  /** A call made on the cluster's membership listener. */
  datatype ClusterCall =
    | NodeJoinedCall(nodeId: NodeId, endPoint: IpEndPoint.IPEndPoint)
    | NodeLeftCall(nodeId: NodeId)

  /** The buffer contents and the listener calls made so far. */
  datatype GossipState = GossipState(items: seq<BufferItem>, calls: seq<ClusterCall>)

  /** The listener call an accepted event leads to: Joined reports the node
      at its parsed address (which must be present), Left and Faulted both
      report the node as gone. */
  function CallFor(e: MembershipEvent): Result<seq<ClusterCall>> {
    match e.eventType
    case Joined =>
      if e.nodeAddress.None? then Err(ArgumentNull)
      else
        var address :- IpEndPoint.Parse(e.nodeAddress.value);
        Ok([NodeJoinedCall(e.nodeId, address.endPoint)])
    case Left => Ok([NodeLeftCall(e.nodeId)])
    case Faulted => Ok([NodeLeftCall(e.nodeId)])
  }

  /** One arriving event: it is added first, and only an event the buffer
      accepts as new leads to a listener call.  A failure still leaves the
      event in the buffer. */
  function OnEvent(st: GossipState, capacity: int, e: MembershipEvent): (GossipState, Outcome) {
    match AddEvent(st.items, capacity, e)
    case Err(err) => (st, Failed(err))
    case Ok(added) =>
      var st' := st.(items := added.items);
      if !added.accepted then (st', Done)
      else
        match CallFor(e)
        case Err(err) => (st', Failed(err))
        case Ok(calls) => (st'.(calls := st.calls + calls), Done)
  }

  /** The events of one message in list order, stopping at the first failure. */
  function OnEvents(st: GossipState, capacity: int, events: seq<MembershipEvent>): (GossipState, Outcome)
    decreases |events|
  {
    if |events| == 0 then (st, Done)
    else
      var (st', o) := OnEvent(st, capacity, events[0]);
      if o.Failed? then (st', o) else OnEvents(st', capacity, events[1..])
  }

  /** The message as sent: Ping and Ack messages carry `events`, every other
      message goes out untouched. */
  function Piggybacked(m: NodeMessage, events: seq<MembershipEvent>): NodeMessage {
    if m.ping.Some? || m.ack.Some? then m.(events := Some(events)) else m
  }

  /** An event seen before leaves everything as it was. */
  lemma DuplicateEventIsIgnored(st: GossipState, capacity: int, e: MembershipEvent)
    requires HasEvent(st.items, e.eventId)
    ensures OnEvent(st, capacity, e) == (st, Done)
  {
  }

  /** The listener is called only for events the buffer accepted, and then
      exactly once: Joined with the parsed address, Left and Faulted with
      the node id. */
  lemma CallbackOnlyForAcceptedEvents(st: GossipState, capacity: int, e: MembershipEvent)
    ensures var (st', o) := OnEvent(st, capacity, e);
      var a := AddEvent(st.items, capacity, e);
      (st'.calls != st.calls ==> a.Ok? && a.value.accepted)
      && (a.Ok? && a.value.accepted && e.eventType != Joined ==>
            o == Done && st'.calls == st.calls + [NodeLeftCall(e.nodeId)])
      && (a.Ok? && a.value.accepted && e.eventType == Joined && e.nodeAddress.Some?
          && IpEndPoint.Parse(e.nodeAddress.value).Ok? ==>
            o == Done
            && st'.calls == st.calls + [NodeJoinedCall(e.nodeId, IpEndPoint.Parse(e.nodeAddress.value).value.endPoint)])
  {
  }

  /** A new Joined event without an address fails with ArgumentNull after
      it has been stored. */
  lemma JoinedWithoutAddressFails(st: GossipState, capacity: int, e: MembershipEvent)
    requires e.eventType == Joined && e.nodeAddress.None?
    requires AddEvent(st.items, capacity, e).Ok? && AddEvent(st.items, capacity, e).value.accepted
    ensures OnEvent(st, capacity, e) == (st.(items := AddEvent(st.items, capacity, e).value.items), Failed(ArgumentNull))
  {
  }

  /** Processing a message only appends listener calls, at most one per
      event, and keeps the buffer valid. */
  lemma {:induction false} OnEventsAppends(st: GossipState, capacity: int, events: seq<MembershipEvent>)
    requires BufferValid(st.items, capacity)
    ensures var st' := OnEvents(st, capacity, events).0;
      BufferValid(st'.items, capacity)
      && |st.calls| <= |st'.calls| <= |st.calls| + |events|
      && st'.calls[..|st.calls|] == st.calls
    decreases |events|
  {
    if |events| > 0 {
      var (s1, o) := OnEvent(st, capacity, events[0]);
      AddKeepsValidOrFails(st.items, capacity, events[0]);
      assert BufferValid(s1.items, capacity);
      assert |st.calls| <= |s1.calls| <= |st.calls| + 1 && s1.calls[..|st.calls|] == st.calls;
      if o.Done? {
        OnEventsAppends(s1, capacity, events[1..]);
        var st' := OnEvents(s1, capacity, events[1..]).0;
        assert st'.calls[..|st.calls|] == st'.calls[..|s1.calls|][..|st.calls|];
      }
    }
  }

  /** A message without events changes nothing. */
  lemma NoEventsNoCalls(st: GossipState, capacity: int)
    ensures OnEvents(st, capacity, []) == (st, Done)
  {
  }

  class SwimGossip {
    /** The older buffer, created with MembershipEventBufferCount items. */
    const membershipEventBuffer: SwimMembershipEventBuffer
    /** Calls made on the cluster's membership listener, in order. */
    var clusterCalls: seq<ClusterCall>

    predicate Valid()
      reads this, membershipEventBuffer
    {
      membershipEventBuffer.Valid()
    }

    function State(): GossipState
      reads this, membershipEventBuffer
    {
      GossipState(membershipEventBuffer.items, clusterCalls)
    }

    constructor ()
      ensures Valid() && fresh(membershipEventBuffer)
      ensures membershipEventBuffer.capacity == SwimOptions.MembershipEventBufferCount
      ensures State() == GossipState([], [])
    {
      membershipEventBuffer := new SwimMembershipEventBuffer(SwimOptions.MembershipEventBufferCount);
      clusterCalls := [];
    }

    /** Ping and Ack messages get the next MembershipEventPiggybackCount
        events of the buffer; other messages and the buffer are left alone. */
    method OnMessageSending(m: NodeMessage) returns (sent: NodeMessage)
      requires Valid()
      modifies membershipEventBuffer
      ensures Valid()
      ensures m.ping.Some? || m.ack.Some? ==>
        var sel := Selected(old(membershipEventBuffer.items), SwimOptions.MembershipEventPiggybackCount, false);
        (forall k :: 0 <= k < |sel| ==> sel[k] < |old(membershipEventBuffer.items)|)
        && sent == Piggybacked(m, Picked(old(membershipEventBuffer.items), sel))
        && membershipEventBuffer.items == Bumped(old(membershipEventBuffer.items), sel)
      ensures m.ping.None? && m.ack.None? ==>
        sent == m && membershipEventBuffer.items == old(membershipEventBuffer.items)
    {
      sent := m;
      if m.ping.Some? || m.ack.Some? {
        var events := membershipEventBuffer.GetNextEvents(SwimOptions.MembershipEventPiggybackCount);
        sent := m.(events := Some(events));
      }
    }

    /** Processes the message's events in order; a failure stops the
        processing and is returned. */
    method OnMessageArrived(m: NodeMessage) returns (o: Outcome)
      requires Valid()
      modifies this, membershipEventBuffer
      ensures Valid()
      ensures m.events.None? ==> State() == old(State()) && o == Done
      ensures m.events.Some? ==>
        (State(), o) == OnEvents(old(State()), membershipEventBuffer.capacity, m.events.value)
    {
      o := Done;
      if m.events.None? {
        return;
      }
      var events := m.events.value;
      ghost var target := OnEvents(State(), membershipEventBuffer.capacity, events);
      var i := 0;
      while i < |events|
        invariant 0 <= i <= |events|
        invariant Valid() && o == Done
        invariant OnEvents(State(), membershipEventBuffer.capacity, events[i..]) == target
      {
        assert events[i..][1..] == events[i + 1..];
        ghost var before := State();
        o := ProcessEvent(events[i]);
        assert OnEvents(before, membershipEventBuffer.capacity, events[i..])
          == if o.Failed? then (State(), o) else OnEvents(State(), membershipEventBuffer.capacity, events[i + 1..]);
        if o.Failed? {
          return;
        }
        i := i + 1;
      }
      assert events[i..] == [];
    }

    /** Adds one event and, when it is new, reports it to the listener. */
    method ProcessEvent(e: MembershipEvent) returns (o: Outcome)
      requires Valid()
      modifies this, membershipEventBuffer
      ensures Valid()
      ensures (State(), o) == OnEvent(old(State()), membershipEventBuffer.capacity, e)
    {
      var added := membershipEventBuffer.Add(e);
      if added.Err? {
        return Failed(added.error);
      }
      o := Done;
      if added.value {
        if e.eventType == Joined {
          if e.nodeAddress.None? {
            return Failed(ArgumentNull);
          }
          var address := IpEndPoint.Parse(e.nodeAddress.value);
          if address.Err? {
            return Failed(address.error);
          }
          clusterCalls := clusterCalls + [NodeJoinedCall(e.nodeId, address.value.endPoint)];
        }
        if e.eventType == Left || e.eventType == Faulted {
          clusterCalls := clusterCalls + [NodeLeftCall(e.nodeId)];
        }
      }
    }
  }
}
