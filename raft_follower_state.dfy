/** What a follower remembers: the leader it last heard from and the time
    after which it gives up on that leader. */
module RaftFollower {
  import opened Common
  import RaftOptions

  class RaftFollowerState {
    const term: int
    var leaderTimeout: int
    var leader: Option<NodeId>

    /** Records the leader, then behaves as a leader message received at `now`. */
    constructor (term: int, leaderNode: Option<NodeId>, now: int)
      ensures this.term == term
      ensures leader == leaderNode
      ensures leaderTimeout == now + RaftOptions.LeaderTimeout
    {
      this.term := term;
      leader := leaderNode;
      new;
      OnLeaderMessage(leaderNode, now);
    }

    /** Pushes the leader deadline to `now` + LeaderTimeout and records the
        sender (possibly none) as the leader. */
    method OnLeaderMessage(leaderNode: Option<NodeId>, now: int)
      modifies this
      ensures leaderTimeout == now + RaftOptions.LeaderTimeout
      ensures leader == leaderNode
    {
      leaderTimeout := now + RaftOptions.LeaderTimeout;
      if leader != leaderNode {
        leader := leaderNode;
      }
    }
  }
}
