/** What a candidate remembers during one election: its term, its deadline
    and the set of nodes that granted it a vote. */
module RaftCandidate {
  import opened Common

  class RaftCandidateState {
    const term: int
    const electionTimeout: int
    var recivedVotesFrom: set<NodeId>

    constructor (term: int, electionTimeout: int)
      ensures this.term == term && this.electionTimeout == electionTimeout
      ensures recivedVotesFrom == {}
    {
      this.term := term;
      this.electionTimeout := electionTimeout;
      recivedVotesFrom := {};
    }

    /** Votes are a set: a repeated vote from the same node is counted once,
        and no vote is ever removed. */
    method AddVote(nodeId: NodeId)
      modifies this
      ensures recivedVotesFrom == old(recivedVotesFrom) + {nodeId}
      ensures |recivedVotesFrom| == |old(recivedVotesFrom)| + (if nodeId in old(recivedVotesFrom) then 0 else 1)
    {
      if nodeId in recivedVotesFrom {
        assert recivedVotesFrom + {nodeId} == recivedVotesFrom;
      } else {
        assert |recivedVotesFrom + {nodeId}| == |recivedVotesFrom| + |{nodeId}|;
      }
      recivedVotesFrom := recivedVotesFrom + {nodeId};
    }
  }
}
