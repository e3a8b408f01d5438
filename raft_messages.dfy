/** The four Raft messages exchanged between nodes, the member records the
    node reads from cluster membership, and the envelope of a sent message. */
module RaftMessages {
  import opened Common
  import opened IpEndPoint

  datatype AppendEntriesRequest = AppendEntriesRequest(
    term: int,
    leaderId: NodeId,
    leaderCommitIndex: int,
    prevLogIndex: int,
    prevLogTerm: int,
    /** None for a heartbeat that carries no entries. */
    entries: Option<seq<Command>>)

  datatype AppendEntriesResponse = AppendEntriesResponse(success: bool, term: int)

  datatype RequestVoteRequest = RequestVoteRequest(term: int, candidateId: NodeId, lastLogIndex: int, lastLogTerm: int)

  datatype RequestVoteResponse = RequestVoteResponse(voteGranted: bool, term: int)

  datatype RaftMessage =
    | AppendEntries(ae: AppendEntriesRequest)
    | AppendEntriesReply(aer: AppendEntriesResponse)
    | RequestVote(rv: RequestVoteRequest)
    | RequestVoteReply(rvr: RequestVoteResponse)
    /** Any other message type (an install-snapshot reply, say): not dispatched. */
    | OtherRaftMessage

  /** A cluster member as the Raft node sees it: its id and its address. */
  datatype Member = Member(id: NodeId, address: IPEndPointAddress)

  /** A message handed to the transport for `to`. */
  datatype Sent = Sent(message: RaftMessage, to: IPEndPointAddress)

  /** The number of entries a request carries (0 for a heartbeat). */
  function EntryCount(r: AppendEntriesRequest): nat {
    if r.entries.Some? then |r.entries.value| else 0
  }
}
