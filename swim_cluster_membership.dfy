/** The SWIM cluster membership of one node: the list of the other known
    members, the protocol period loop that runs while the node is started,
    and the handlers for the messages that arrive.  The UDP socket and the
    receive loop are left out; a message handed to the socket is appended to
    `outbox`, and the clock reading of each arrival is a parameter. */
module SwimClusterMembershipModule {
  import opened Common
  import opened SwimMessages
  import opened SwimMembers
  import IpEndPoint
  import SwimProtocolPeriodLoopModule

  /** The default multicast group 239.1.1.1 and the default UDP port. */
  const MulticastGroupAddress: IpEndPoint.IPAddress := IpEndPoint.IPAddress(239, 1, 1, 1)
  const Port: int := 60001

  /** The ids of the other members after a NodeJoined from `joined`: every
      node but this one is appended, whether it is known already or not. */
  function AfterJoin(ids: seq<NodeId>, selfId: NodeId, joined: NodeId): seq<NodeId> {
    if joined != selfId then ids + [joined] else ids
  }

  /** Which member an Ack for period `psn` from `nodeId` activates: none
      when the loop is stopped (`current` is None) or the Ack is for another
      period, otherwise the one member with that id, if any. */
  function AckTarget(ids: seq<NodeId>, current: Option<int>, psn: int, nodeId: NodeId): Result<Option<nat>> {
    if current.None? || current.value != psn then Ok(None)
    else SingleOrDefault(ids, nodeId)
  }

  /** This node never appears among the other members. */
  lemma {:induction false} SelfNeverListed(ids: seq<NodeId>, selfId: NodeId, joins: seq<NodeId>)
    requires selfId !in ids
    ensures selfId !in Joins(ids, selfId, joins)
    decreases |joins|
  {
    if |joins| > 0 {
      SelfNeverListed(ids, selfId, joins[..|joins| - 1]);
    }
  }

  /** The ids after a series of NodeJoined messages. */
  function Joins(ids: seq<NodeId>, selfId: NodeId, joins: seq<NodeId>): (r: seq<NodeId>)
    ensures |ids| <= |r| <= |ids| + |joins| && r[..|ids|] == ids
    decreases |joins|
  {
    if |joins| == 0 then ids
    else
      var prefix := Joins(ids, selfId, joins[..|joins| - 1]);
      assert AfterJoin(prefix, selfId, joins[|joins| - 1])[..|ids|] == prefix[..|ids|];
      AfterJoin(prefix, selfId, joins[|joins| - 1])
  }

  /** A node that announces itself twice is listed twice, and from then on
      every Ack for the current period fails with InvalidOperation, whoever
      sent it, as long as it carries that node's id. */
  lemma RepeatedJoinBreaksAck(ids: seq<NodeId>, selfId: NodeId, joined: NodeId, psn: int)
    requires joined != selfId
    ensures AckTarget(AfterJoin(AfterJoin(ids, selfId, joined), selfId, joined), Some(psn), psn, joined)
      == Err(InvalidOperation)
  {
    var r := AfterJoin(AfterJoin(ids, selfId, joined), selfId, joined);
    assert r[|ids|] == joined && r[|ids| + 1] == joined;
  }

  /** NodeJoined as evidently intended: a node already listed is not added again. */
  function AfterJoinOnce(ids: seq<NodeId>, selfId: NodeId, joined: NodeId): seq<NodeId> {
    if joined != selfId && joined !in ids then ids + [joined] else ids
  }

  predicate NoRepeats(ids: seq<NodeId>) {
    forall i, j :: 0 <= i < j < |ids| ==> ids[i] != ids[j]
  }

  /** With repeated announcements ignored the ids never repeat, this node is
      never listed, and no Ack can hit two members. */
  lemma JoinOnceKeepsAckWorking(ids: seq<NodeId>, selfId: NodeId, joined: NodeId, current: Option<int>, psn: int, nodeId: NodeId)
    requires NoRepeats(ids) && selfId !in ids
    ensures NoRepeats(AfterJoinOnce(ids, selfId, joined)) && selfId !in AfterJoinOnce(ids, selfId, joined)
    ensures AckTarget(AfterJoinOnce(ids, selfId, joined), current, psn, nodeId).Ok?
  {
    var r := AfterJoinOnce(ids, selfId, joined);
    AckTargetCases(r, current, psn, nodeId);
  }

  /** An Ack fails exactly when the loop runs, the period matches and
      several members carry the id; it activates a member exactly when one
      does. */
  lemma AckTargetCases(ids: seq<NodeId>, current: Option<int>, psn: int, nodeId: NodeId)
    ensures var r := AckTarget(ids, current, psn, nodeId);
      (r.Err? <==>
         (current == Some(psn)
          && exists i, j :: 0 <= i < j < |ids| && ids[i] == nodeId && ids[j] == nodeId))
      && (r.Ok? && r.value.Some? <==>
         (current == Some(psn)
          && exists i :: (0 <= i < |ids| && ids[i] == nodeId
                          && forall j :: 0 <= j < |ids| && ids[j] == nodeId ==> j == i)))
  {
    var r := AckTarget(ids, current, psn, nodeId);
    if r.Ok? && r.value.Some? {
      var i := r.value.value;
      assert ids[i] == nodeId;
    }
  }

  class SwimClusterMembership {
    /** The id of this node (memberSelf.Id); its incarnation stays 0. */
    const nodeId: NodeId
    var isStarted: bool
    /** The other known members, in the order they joined. */
    var otherMembers: seq<SwimMember>
    var protocolPeriod: SwimProtocolPeriodLoopModule.SwimProtocolPeriodLoop?
    /** Messages handed to the socket, in order. */
    var outbox: seq<Outgoing>
    /** The ids reported by the MemberJoined event, in order. */
    var memberJoined: seq<NodeId>

    /** The loop runs exactly while the node is started, and this node is
        never one of the other members. */
    predicate Valid()
      reads this
    {
      (isStarted <==> protocolPeriod != null)
      && nodeId !in Ids(otherMembers)
    }

    constructor (nodeId: NodeId)
      ensures Valid() && this.nodeId == nodeId && !isStarted
      ensures otherMembers == [] && outbox == [] && memberJoined == []
    {
      this.nodeId := nodeId;
      isStarted := false;
      otherMembers := [];
      protocolPeriod := null;
      outbox := [];
      memberJoined := [];
    }

    /** The socket exists only while the node is started; otherwise a send
        is a no-op. */
    method SendMessage(message: NodeMessage, endPoint: IpEndPoint.IPEndPoint)
      modifies this
      ensures outbox == old(outbox) + (if isStarted then [Outgoing(message, endPoint)] else [])
      ensures isStarted == old(isStarted) && otherMembers == old(otherMembers)
      ensures protocolPeriod == old(protocolPeriod) && memberJoined == old(memberJoined)
    {
      if isStarted {
        outbox := outbox + [Outgoing(message, endPoint)];
      }
    }

    /** Starting a stopped node creates the protocol period loop and
        announces the node on the multicast group; starting again does
        nothing. */
    method Start(now: int)
      requires Valid()
      modifies this
      ensures Valid() && isStarted
      ensures otherMembers == old(otherMembers) && memberJoined == old(memberJoined)
      ensures old(isStarted) ==> protocolPeriod == old(protocolPeriod) && outbox == old(outbox)
      ensures !old(isStarted) ==>
        fresh(protocolPeriod)
        && protocolPeriod.periodSequenceNumber == 1 && protocolPeriod.pingNode == null
        && outbox == old(outbox) + [Outgoing(JoinedOnly(NodeJoinedMessage(nodeId, 0)),
                                             IpEndPoint.IPEndPoint(MulticastGroupAddress, Port))]
    {
      if !isStarted {
        protocolPeriod := new SwimProtocolPeriodLoopModule.SwimProtocolPeriodLoop(now);
        isStarted := true;
        NotifyJoined();
      }
    }

    /** Stopping a started node disposes of the loop; stopping again does
        nothing. */
    method Stop()
      requires Valid()
      modifies this
      ensures Valid() && !isStarted && protocolPeriod == null
      ensures otherMembers == old(otherMembers) && outbox == old(outbox) && memberJoined == old(memberJoined)
    {
      if isStarted {
        protocolPeriod := null;
        isStarted := false;
      }
    }

    /** Announces this node (incarnation 0) on the multicast group. */
    method NotifyJoined()
      modifies this
      ensures outbox == old(outbox) + (if isStarted then [Outgoing(JoinedOnly(NodeJoinedMessage(nodeId, 0)),
                                                                   IpEndPoint.IPEndPoint(MulticastGroupAddress, Port))] else [])
      ensures isStarted == old(isStarted) && otherMembers == old(otherMembers)
      ensures protocolPeriod == old(protocolPeriod) && memberJoined == old(memberJoined)
    {
      SendMessage(JoinedOnly(NodeJoinedMessage(nodeId, 0)), IpEndPoint.IPEndPoint(MulticastGroupAddress, Port));
    }

    /** The period number of the running loop, if any. */
    function CurrentPeriod(): Option<int>
      reads this, protocolPeriod
    {
      if protocolPeriod == null then None else Some(protocolPeriod.periodSequenceNumber)
    }

    /** A message from `remoteEndPoint` arriving at `now`: its NodeJoined,
        Ping, PingReq and Ack parts are handled in that order (a NodeLeft
        part is ignored).  A failure of the Ack part is returned. */
    method OnMessage(msg: NodeMessage, remoteEndPoint: IpEndPoint.IPEndPoint, now: int) returns (o: Outcome)
      requires Valid()
      modifies this, otherMembers
      ensures Valid()
      ensures isStarted == old(isStarted) && protocolPeriod == old(protocolPeriod)
      ensures Ids(otherMembers) == (if msg.nodeJoined.Some? then AfterJoin(old(Ids(otherMembers)), nodeId, msg.nodeJoined.value.nodeId)
                                    else old(Ids(otherMembers)))
      ensures otherMembers[..|old(otherMembers)|] == old(otherMembers)
      ensures outbox == old(outbox) + (if msg.ping.Some? && isStarted then [Outgoing(AckOnly(AckMessage(nodeId, msg.ping.value.periodSequenceNumber)), remoteEndPoint)] else [])
      ensures memberJoined == old(memberJoined) + (if msg.nodeJoined.Some? && msg.nodeJoined.value.nodeId != nodeId then [msg.nodeJoined.value.nodeId] else [])
      ensures msg.nodeJoined.Some? && msg.nodeJoined.value.nodeId != nodeId ==>
                && otherMembers[|otherMembers| - 1].address == IpEndPoint.From(remoteEndPoint)
                && otherMembers[|otherMembers| - 1].incarnation == msg.nodeJoined.value.incarnation
                && (msg.ack.None? ==> otherMembers[|otherMembers| - 1].State() == MemberState(Active, None, now, 0))
      ensures var target := if msg.ack.None? then Ok(None) else AckTarget(Ids(otherMembers), CurrentPeriod(), msg.ack.value.periodSequenceNumber, msg.ack.value.nodeId);
        (target.Err? ==> o == Failed(target.error))
        && (target.Ok? ==> o == Done)
    {
      OnRequestParts(msg, remoteEndPoint, now);
      o := Done;
      if msg.ack.Some? {
        o := OnPingAck(msg.ack.value, now);
      }
    }

    /** The NodeJoined, Ping and PingReq parts of a message, in that order. */
    method OnRequestParts(msg: NodeMessage, remoteEndPoint: IpEndPoint.IPEndPoint, now: int)
      requires Valid()
      modifies this
      ensures Valid()
      ensures isStarted == old(isStarted) && protocolPeriod == old(protocolPeriod)
      ensures Ids(otherMembers) == (if msg.nodeJoined.Some? then AfterJoin(old(Ids(otherMembers)), nodeId, msg.nodeJoined.value.nodeId)
                                    else old(Ids(otherMembers)))
      ensures otherMembers[..|old(otherMembers)|] == old(otherMembers)
      ensures forall k :: |old(otherMembers)| <= k < |otherMembers| ==> fresh(otherMembers[k])
      ensures outbox == old(outbox) + (if msg.ping.Some? && isStarted then [Outgoing(AckOnly(AckMessage(nodeId, msg.ping.value.periodSequenceNumber)), remoteEndPoint)] else [])
      ensures msg.nodeJoined.Some? && msg.nodeJoined.value.nodeId != nodeId ==>
                && memberJoined == old(memberJoined) + [msg.nodeJoined.value.nodeId]
                && otherMembers[|otherMembers| - 1].address == IpEndPoint.From(remoteEndPoint)
                && otherMembers[|otherMembers| - 1].incarnation == msg.nodeJoined.value.incarnation
                && otherMembers[|otherMembers| - 1].State() == MemberState(Active, None, now, 0)
      ensures msg.nodeJoined.None? || msg.nodeJoined.value.nodeId == nodeId ==> memberJoined == old(memberJoined)
    {
      if msg.nodeJoined.Some? {
        OnNodeJoined(msg.nodeJoined.value, remoteEndPoint, now);
      }
      if msg.ping.Some? {
        OnPing(msg.ping.value, remoteEndPoint);
      }
      if msg.pingReq.Some? {
        OnPingReq(msg.pingReq.value, remoteEndPoint);
      }
    }

    /** A NodeJoined from another node adds it as a new Active member at
        the sender's address, last seen `now`, and raises MemberJoined; one
        from this node is ignored.  A node already listed is added again. */
    method OnNodeJoined(m: NodeJoinedMessage, endPoint: IpEndPoint.IPEndPoint, now: int)
      requires Valid()
      modifies this
      ensures Valid()
      ensures isStarted == old(isStarted) && protocolPeriod == old(protocolPeriod) && outbox == old(outbox)
      ensures Ids(otherMembers) == AfterJoin(old(Ids(otherMembers)), nodeId, m.nodeId)
      ensures m.nodeId == nodeId ==> otherMembers == old(otherMembers) && memberJoined == old(memberJoined)
      ensures m.nodeId != nodeId ==>
        (|otherMembers| == |old(otherMembers)| + 1
         && otherMembers[..|old(otherMembers)|] == old(otherMembers)
         && fresh(otherMembers[|otherMembers| - 1])
         && otherMembers[|otherMembers| - 1].address == IpEndPoint.From(endPoint)
         && otherMembers[|otherMembers| - 1].incarnation == m.incarnation
         && otherMembers[|otherMembers| - 1].notifies
         && otherMembers[|otherMembers| - 1].State() == MemberState(Active, None, now, 0)
         && memberJoined == old(memberJoined) + [m.nodeId])
    {
      if m.nodeId != nodeId {
        var member := new SwimMember(m.nodeId, IpEndPoint.From(endPoint), now, m.incarnation, Active, true);
        otherMembers := otherMembers + [member];
        memberJoined := memberJoined + [m.nodeId];
        assert Ids(otherMembers) == old(Ids(otherMembers)) + [m.nodeId];
      }
    }

    /** A Ping is answered with an Ack carrying this node's id and the
        Ping's period number, sent back to the sender. */
    method OnPing(m: PingMessage, endPoint: IpEndPoint.IPEndPoint)
      modifies this
      ensures outbox == old(outbox) + (if isStarted then [Outgoing(AckOnly(AckMessage(nodeId, m.periodSequenceNumber)), endPoint)] else [])
      ensures isStarted == old(isStarted) && otherMembers == old(otherMembers)
      ensures protocolPeriod == old(protocolPeriod) && memberJoined == old(memberJoined)
    {
      SendMessage(AckOnly(AckMessage(nodeId, m.periodSequenceNumber)), endPoint);
    }

    /** A PingReq is not acted upon. */
    method OnPingReq(m: PingReqMessage, endPoint: IpEndPoint.IPEndPoint)
    {
    }

    /** An Ack activates the one member with the Ack's id when the loop runs
        and the Ack is for its current period; several members with that id
        make it fail with InvalidOperation. */
    method OnPingAck(m: AckMessage, now: int) returns (o: Outcome)
      modifies otherMembers
      ensures var target := AckTarget(Ids(otherMembers), CurrentPeriod(), m.periodSequenceNumber, m.nodeId);
        (target.Err? ==> o == Failed(target.error))
        && (target.Ok? ==> o == Done)
        && (target.Ok? && target.value.Some? ==>
              otherMembers[target.value.value].State()
                == Activated(old(otherMembers[target.value.value].State()), now, otherMembers[target.value.value].notifies))
        && (forall x :: x in otherMembers && x.State() != old(x.State()) ==>
              target.Ok? && target.value.Some? && x == otherMembers[target.value.value])
    {
      if protocolPeriod == null {
        return Done;
      }
      if protocolPeriod.periodSequenceNumber != m.periodSequenceNumber {
        return Done;
      }
      var found := SingleOrDefault(Ids(otherMembers), m.nodeId);
      if found.Err? {
        return Failed(found.error);
      }
      o := Done;
      if found.value.Some? {
        otherMembers[found.value.value].OnActive(now);
      }
    }
  }
}
