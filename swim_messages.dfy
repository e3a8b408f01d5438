/** SWIM membership options (their default values) and the messages that
    nodes exchange. */
module SwimOptions {
  /** Length of one protocol period, in milliseconds (15 s). */
  const ProtocolPeriod: int := 15000
  /** How many members the indirect phase would ask to ping the target (k). */
  const FailureDetectionSubgroupSize: int := 3
  /** How long to wait for an Ack to a direct Ping, in milliseconds (3 s). */
  const PingAckTimeout: int := 3000
  /** Capacity of a node's gossip event buffer. */
  const MembershipEventBufferCount: int := 20
  /** How many gossip events ride on one Ping or Ack. */
  const MembershipEventPiggybackCount: int := 3
}

module SwimMessages {
  import opened Common
  import IpEndPoint

  datatype MembershipEventType = Joined | Left | Faulted

  /** A gossip event.  Two events are equal exactly when their event ids
      are (the id is a Guid in the source, an integer here). */
  datatype MembershipEvent = MembershipEvent(
    eventId: int,
    nodeId: NodeId,
    nodeAddress: Option<string>,
    timestamp: int,
    eventType: MembershipEventType)

  datatype PingMessage = PingMessage(fromNodeId: NodeId, periodSequenceNumber: int)

  datatype PingReqMessage = PingReqMessage(
    fromNodeId: NodeId, periodSequenceNumber: int, targetNodeAddress: string, targetNodePort: int)

  datatype AckMessage = AckMessage(nodeId: NodeId, periodSequenceNumber: int)

  datatype NodeJoinedMessage = NodeJoinedMessage(nodeId: NodeId, incarnation: int)

  datatype NodeLeftMessage = NodeLeftMessage(nodeId: NodeId, incarnation: int)

  /** The envelope: any combination of parts may be present, plus the
      gossip events piggybacked on it. */
  datatype NodeMessage = NodeMessage(
    nodeJoined: Option<NodeJoinedMessage>,
    nodeLeft: Option<NodeLeftMessage>,
    ping: Option<PingMessage>,
    pingReq: Option<PingReqMessage>,
    ack: Option<AckMessage>,
    events: Option<seq<MembershipEvent>>)

  /** A message handed to the transport, with its destination. */
  datatype Outgoing = Outgoing(message: NodeMessage, to: IpEndPoint.IPEndPoint)

  function PingOnly(p: PingMessage): NodeMessage {
    NodeMessage(None, None, Some(p), None, None, None)
  }

  function AckOnly(a: AckMessage): NodeMessage {
    NodeMessage(None, None, None, None, Some(a), None)
  }

  function JoinedOnly(j: NodeJoinedMessage): NodeMessage {
    NodeMessage(Some(j), None, None, None, None, None)
  }
}
