# SlimCluster core, modelled and verified in Dafny

SlimCluster is a .NET library for building clusters of nodes.

- **Membership and failure detection** use SWIM:
  - A protocol period loop pings one member per period.
  - Missing acknowledgements drive a member through Active, Confirming and Suspicious (or Faulted).
  - Membership events are gossiped by piggybacking them on Ping and Ack messages, drawn from a bounded event buffer.
- **Consensus** uses Raft:
  - A node moves between Follower, Candidate and Leader.
  - It keeps an in-memory log.
  - The leader replicates the log to followers and applies committed entries to a state machine. In the sample service this is a counter.
- **On the wire**, messages are framed by an aliased JSON serializer.
- **Addresses** are IP end points written as `a.b.c.d:port`.

This project models that core in Dafny. Each component has one file:

| file | models |
|---|---|
| `raft_log.dfy` | the in-memory log repository (`RaftLog`) |
| `counter_state_machine.dfy` | the counter state machine of the sample service (`CounterService`) |
| `raft_leader_state.dfy` | the leader's replication and commit engine (`RaftLeader`) |
| `raft_candidate_state.dfy`, `raft_follower_state.dfy` | the candidate and follower role states |
| `raft_node.dfy` | the Raft node: elections, vote and append handling, the tick loop (`RaftConsensus`) |
| `raft_messages.dfy`, `raft_options.dfy` | Raft messages and default options |
| `event_buffer.dfy` | the two membership event buffers (`EventBuffer`) |
| `swim_gossip.dfy` | event piggybacking and processing of arriving events |
| `swim_member.dfy` | the SWIM member and its status transitions (`SwimMembers`) |
| `swim_failure_detector.dfy` | the newer failure detector |
| `swim_protocol_period_loop.dfy` | the older protocol period loop, which the cluster runs |
| `swim_cluster_membership.dfy` | start/stop, and the message handlers of the cluster membership |
| `swim_messages.dfy` | SWIM messages and default SWIM options |
| `aliased_serializer.dfy` | alias registration and the frame layout of the serializer |
| `ip_endpoint_address.dfy` | parsing, printing and equality of `IPEndPointAddress` |
| `common.dfy` | `Result`/`Outcome` (a value or the .NET exception thrown), commands, ids |

**How objects are modelled.**

- An object whose fields the source updates in place is a Dafny `class` with those fields.
- Its state is also available as one value, through `State()`.
- Most methods are proved to produce exactly the state that a pure function of the old state describes. The node's whole tick (`RaftConsensus.RaftNode.OnLoopRun`) is the exception: it states only the message queue, the role invariant and that the term never decreases, and each of its two halves is specified by a method of its own.
- The properties the source promises are lemmas about those functions.

**How the environment is modelled.**

- **Exceptions** are `Err`/`Failed` values that name the .NET exception type.
- **Clocks** are `now` parameters, in milliseconds.
- **Random choices** are parameters:
  - an index for the ping target;
  - a list of draws for the subgroup;
  - the election deadline, within its allowed range.
- **Messages sent** are appended to an `outbox` sequence.
- **Replies awaited by the leader** are a function `replies` from follower id to the reply or the timeout.

## Model

| member | source | states |
|---|---|---|
| RaftLog.TermAt | src/SlimCluster.Consensus.Raft/Logs/InMemoryLogRepository.cs:14-20 | GetTermAtIndex as a function: the term at position index-start, ArgumentOutOfRange outside the retained list (its meaning is stated by TermAtMatchesEntryAt) |
| RaftLog.EntryAt | src/SlimCluster.Consensus.Raft/Logs/InMemoryLogRepository.cs:22-32 | GetByIndex as a function: bounds checked against the start and LastIndex, then against the retained list (stated by TermAtMatchesEntryAt) |
| RaftLog.LogsAt | src/SlimCluster.Consensus.Raft/Logs/InMemoryLogRepository.cs:94-102 | GetLogsAtIndex as a function: the commands of count entries from index (stated by LogsAtBounds and LogsAtIsRange) |
| RaftLog.AppendOne | src/SlimCluster.Consensus.Raft/Logs/InMemoryLogRepository.cs:34-43 | Append(term, entry) as a function: the entry is numbered LastIndex+1 (stated by AppendOneKeepsConsistent and AppendAllNumbers) |
| RaftLog.AppendRangeAsWritten | src/SlimCluster.Consensus.Raft/Logs/InMemoryLogRepository.cs:45-66 | Append(index, term, entries) as written: the guard at line 47 and the LastIndex at line 63 (stated by AppendPastEndRefused and AppendRangeOvershoots) |
| RaftLog.AppendFrom | src/SlimCluster.Consensus.Raft/Logs/InMemoryLogRepository.cs:45-66 | Append(index, term, entries) as evidently intended (stated by AppendFromWrites) |
| RaftLog.CommitTo | src/SlimCluster.Consensus.Raft/Logs/InMemoryLogRepository.cs:68-76 | Commit(index) as a function (stated by CommitBounds) |
| RaftLog.EraseBeforeResult | src/SlimCluster.Consensus.Raft/Logs/InMemoryLogRepository.cs:78-92 | EraseBefore(index) as a function, with the RemoveFirst throw past the end (stated by EraseBeforeKeepsTail) |
| RaftLog.AppendOneKeepsConsistent | src/SlimCluster.Consensus.Raft/Logs/InMemoryLogRepository.cs:34-43 | appending one entry gives it index LastIndex+1 with the given term, keeps the log consistently numbered and leaves every other index's term as it was |
| RaftLog.AppendAllNumbers | src/SlimCluster.Consensus.Raft/Logs/InMemoryLogRepository.cs:34-43 | successive appends return LastIndex+1, +2, … in order and advance LastIndex by their number |
| RaftLog.FreshLogAppends | src/SlimCluster.Consensus.Raft/Logs/InMemoryLogRepository.cs:5-8 | on a fresh log (LastIndex (0,0), first index 1) successive appends are numbered 1, 2, 3, … |
| RaftLog.CommitBounds | src/SlimCluster.Consensus.Raft/Logs/InMemoryLogRepository.cs:68-76 | Commit(i) succeeds iff CommitedIndex ≤ i ≤ LastIndex, then sets only the commit index; re-committing the same index is allowed |
| RaftLog.TermAtMatchesEntryAt | src/SlimCluster.Consensus.Raft/Logs/InMemoryLogRepository.cs:14-32 | GetTermAtIndex and GetByIndex both succeed exactly for retained indices, and agree on the entry's index and term |
| RaftLog.LogsAtBounds | src/SlimCluster.Consensus.Raft/Logs/InMemoryLogRepository.cs:94-102 | GetLogsAtIndex(i, n) succeeds iff i ≥ start and i+n-1 ≤ LastIndex, and then returns max(n, 0) commands |
| RaftLog.LogsAtIsRange | src/SlimCluster.Consensus.Raft/Logs/InMemoryLogRepository.cs:94-102 | the commands returned are exactly those of entries i..i+n-1, in order |
| RaftLog.EraseBeforeKeepsTail | src/SlimCluster.Consensus.Raft/Logs/InMemoryLogRepository.cs:78-92 | EraseBefore(i), for i up to one past the last index, succeeds, moves the start to max(start, i) and keeps every entry at or after i with its index and contents |
| RaftLog.AppendFromWrites | src/SlimCluster.Consensus.Raft/Logs/InMemoryLogRepository.cs:45-66 | corrected Append(index, term, entries): succeeds iff start ≤ index ≤ LastIndex+1; keeps entries below index, writes the new ones at index, index+1, … under term, and LastIndex names the last one written |
| RaftLog.AppendPastEndRefused | src/SlimCluster.Consensus.Raft/Logs/InMemoryLogRepository.cs:47-50 | as written, Append at LastIndex+1 (the follower extending its log) always throws ArgumentOutOfRange; the corrected append accepts it |
| RaftLog.AppendRangeOvershoots | src/SlimCluster.Consensus.Raft/Logs/InMemoryLogRepository.cs:58-63 | as written, replacing the last entry with one entry leaves LastIndex one past the entries held, so the log is no longer consistent |
| RaftLog.InMemoryLogRepository.constructor | src/SlimCluster.Consensus.Raft/Logs/InMemoryLogRepository.cs:5-9 | a new repository is the empty log: LastIndex (0,0), CommitedIndex 0, first index 1 |
| RaftLog.InMemoryLogRepository.GetTermAtIndex | src/SlimCluster.Consensus.Raft/Logs/InMemoryLogRepository.cs:14-20 | the term at the position index-start, ArgumentOutOfRange outside the retained list |
| RaftLog.InMemoryLogRepository.GetByIndex | src/SlimCluster.Consensus.Raft/Logs/InMemoryLogRepository.cs:22-32 | the entry at index, ArgumentOutOfRange below the start, past LastIndex or past the retained list |
| RaftLog.InMemoryLogRepository.GetLogsAtIndex | src/SlimCluster.Consensus.Raft/Logs/InMemoryLogRepository.cs:94-102 | the commands of count entries from index, ArgumentOutOfRange when they are not all retained |
| RaftLog.InMemoryLogRepository.AppendEntry | src/SlimCluster.Consensus.Raft/Logs/InMemoryLogRepository.cs:34-43 | Append(term, entry) on the object gives the new state and index of the log function above |
| RaftLog.InMemoryLogRepository.AppendRange | src/SlimCluster.Consensus.Raft/Logs/InMemoryLogRepository.cs:45-66 | Append(index, term, entries) as written, with its RemoveLast and AddLast loops, produces the as-written state or throws leaving the log unchanged |
| RaftLog.InMemoryLogRepository.AppendFromIndex | src/SlimCluster.Consensus.Raft/Logs/InMemoryLogRepository.cs:45-66 | the corrected append on the object produces the corrected state or fails leaving the log unchanged |
| RaftLog.InMemoryLogRepository.RemoveFrom | src/SlimCluster.Consensus.Raft/Logs/InMemoryLogRepository.cs:52-56 | the RemoveLast loop drops exactly the retained entries from index on |
| RaftLog.InMemoryLogRepository.AddNumbered | src/SlimCluster.Consensus.Raft/Logs/InMemoryLogRepository.cs:58-61 | the AddLast loop appends the entries numbered from index under term, and its counter ends at index + count |
| RaftLog.InMemoryLogRepository.Commit | src/SlimCluster.Consensus.Raft/Logs/InMemoryLogRepository.cs:68-76 | Commit on the object matches the commit function, throwing and changing nothing when out of range |
| RaftLog.InMemoryLogRepository.EraseBefore | src/SlimCluster.Consensus.Raft/Logs/InMemoryLogRepository.cs:78-92 | the RemoveFirst loop matches the erase function, including the throw when it runs out of entries |
| CounterService.Effect | src/Samples/SlimCluster.Samples.Service/State/StateMachine/CounterStateMachine.cs:30-36 | the counter after a supported command, none for any other command (stated by CommandEffects) |
| CounterService.Step | src/Samples/SlimCluster.Samples.Service/State/StateMachine/CounterStateMachine.cs:21-41 | Apply(command, index) as a function: the new state and the value or exception (stated by StepAcceptsOnlyNextIndex) |
| CounterService.Replay | src/Samples/SlimCluster.Samples.Service/State/StateMachine/CounterStateMachine.cs:30-36 | the counter reached by replaying commands in order (stated by ApplyInOrder) |
| CounterService.Wrap32 | src/Samples/SlimCluster.Samples.Service/State/StateMachine/CounterStateMachine.cs:32-33 | unchecked 32-bit arithmetic: the result is in the int range and congruent to the input modulo 2^32 |
| CounterService.StepStaysInRange | src/Samples/SlimCluster.Samples.Service/State/StateMachine/CounterStateMachine.cs:30-36 | the counter always stays within the 32-bit int range |
| CounterService.StepAcceptsOnlyNextIndex | src/Samples/SlimCluster.Samples.Service/State/StateMachine/CounterStateMachine.cs:21-41 | Apply succeeds iff index = CurrentIndex+1 and the command is supported; it then moves to that index and returns the counter; any other index is InvalidOperation, an unknown command NotImplemented, and a failure changes nothing |
| CounterService.CommandEffects | src/Samples/SlimCluster.Samples.Service/State/StateMachine/CounterStateMachine.cs:30-36 | Increment adds one and Decrement subtracts one, wrapping at the int limits, and Reset gives zero |
| CounterService.ApplyInOrder | src/Samples/SlimCluster.Samples.Service/State/StateMachine/CounterStateMachine.cs:21-41 | supported commands applied at consecutive indices all succeed; each returns the counter after the commands so far, and the machine ends at the last index with the replayed counter |
| CounterService.FreshMachineAppliesFromOne | src/Samples/SlimCluster.Samples.Service/State/StateMachine/CounterStateMachine.cs:11-14 | a fresh machine applies commands at 1..k and ends at index k with the replayed counter |
| CounterService.GapRefused | src/Samples/SlimCluster.Samples.Service/State/StateMachine/CounterStateMachine.cs:25-28 | skipping or repeating an index is refused with InvalidOperation and changes nothing |
| CounterService.CounterStateMachine.constructor | src/Samples/SlimCluster.Samples.Service/State/StateMachine/CounterStateMachine.cs:11-12 | a new machine is at index 0 with counter 0 |
| CounterService.CounterStateMachine.CurrentIndex | src/Samples/SlimCluster.Samples.Service/State/StateMachine/CounterStateMachine.cs:14 | the index of the last applied command |
| CounterService.CounterStateMachine.Counter | src/Samples/SlimCluster.Samples.Service/State/StateMachine/CounterStateMachine.cs:19 | the counter value |
| CounterService.CounterStateMachine.Apply | src/Samples/SlimCluster.Samples.Service/State/StateMachine/CounterStateMachine.cs:21-41 | Apply on the object gives the new state and result of the step function |
| CounterService.CounterStateMachine.Snapshot | src/Samples/SlimCluster.Samples.Service/State/StateMachine/CounterStateMachine.cs:47 | always NotImplemented |
| CounterService.CounterStateMachine.Restore | src/Samples/SlimCluster.Samples.Service/State/StateMachine/CounterStateMachine.cs:44 | always NotImplemented |
| RaftCandidate.RaftCandidateState.constructor | src/SlimCluster.Consensus.Raft/RaftCandidateState.cs:9-14 | holds the given term and deadline and an empty vote set |
| RaftCandidate.RaftCandidateState.AddVote | src/SlimCluster.Consensus.Raft/RaftCandidateState.cs:16-19 | adds the voter to the set; a repeated vote does not raise the count, and no vote is removed |
| RaftFollower.RaftFollowerState.constructor | src/SlimCluster.Consensus.Raft/RaftFollowerState.cs:15-23 | records the leader and then behaves as a leader message at construction time: the deadline is now + LeaderTimeout |
| RaftFollower.RaftFollowerState.OnLeaderMessage | src/SlimCluster.Consensus.Raft/RaftFollowerState.cs:25-33 | pushes the deadline to now + LeaderTimeout and records the given node (possibly none) as leader |
| RaftLeader.ShouldContact | src/SlimCluster.Consensus.Raft/RaftLeaderState.cs:90-97 | the send decision of a tick: entries past NextIndex, never contacted, or ping interval elapsed (stated by ExchangeSendsIffContacted) |
| RaftLeader.BuildRequest | src/SlimCluster.Consensus.Raft/RaftLeaderState.cs:159-179 | the AppendEntries request for a follower, or the log's exception (stated by RequestShape and RequestFailsOnlyOutsideLog) |
| RaftLeader.AfterReply | src/SlimCluster.Consensus.Raft/RaftLeaderState.cs:185-222 | the follower's state after the reply and the newer term it revealed (stated by ReplyHandling) |
| RaftLeader.ExchangeWith | src/SlimCluster.Consensus.Raft/RaftLeaderState.cs:87-101 | the exchange with one member (stated by ExchangeSendsIffContacted and FirstContactIsHeartbeat) |
| RaftLeader.ReplicateAll | src/SlimCluster.Consensus.Raft/RaftLeaderState.cs:85-102 | the replication pass over all members (stated by ReplicateAllTracksMembers) |
| RaftLeader.HalfTowardZero | src/SlimCluster.Consensus.Raft/RaftLeaderState.cs:145 | C# integer division by two, truncating toward zero (used by MajorityCountsFollowersOnly) |
| RaftLeader.CountAtLeast | src/SlimCluster.Consensus.Raft/RaftLeaderState.cs:151 | how many tracked followers have MatchIndex at least m (stated by CountMatchAtLeast) |
| RaftLeader.MajorityMatch | src/SlimCluster.Consensus.Raft/RaftLeaderState.cs:143-153 | the largest match index a majority reached, 0 with none (stated by MajorityMatchIsLargestReplicated) |
| RaftLeader.ApplyAndCommit | src/SlimCluster.Consensus.Raft/RaftLeaderState.cs:125-136 | the apply/commit pass over the committed commands (stated by ApplyAndCommitInOrder) |
| RaftLeader.CommitPhase | src/SlimCluster.Consensus.Raft/RaftLeaderState.cs:117-137 | the commit half of a tick given the majority index (stated by ApplyAndCommitInOrder) |
| RaftLeader.EnsureState | src/SlimCluster.Consensus.Raft/RaftLeaderState.cs:225-237 | the follower is tracked afterwards; a known follower's state and every other entry are untouched |
| RaftLeader.EnsureStateInitialises | src/SlimCluster.Consensus.Raft/RaftLeaderState.cs:225-237 | a follower seen for the first time gets NextIndex = LastIndex+1 and MatchIndex = 0 |
| RaftLeader.RequestShape | src/SlimCluster.Consensus.Raft/RaftLeaderState.cs:157-179 | every AppendEntries carries the leader's term, id and commit index; PrevLogIndex = NextIndex-1, and PrevLogTerm is 0 at index 0 and otherwise the log's term there. Entries are attached iff this is not a first contact and the log extends past PrevLogIndex; they are then exactly the commands at PrevLogIndex+1..LastIndex |
| RaftLeader.RequestHeader | src/SlimCluster.Consensus.Raft/RaftLeaderState.cs:159-170 | the header fields of the request, and when entries are attached |
| RaftLeader.RequestEntries | src/SlimCluster.Consensus.Raft/RaftLeaderState.cs:170-179 | the attached entries are the commands at PrevLogIndex+1..LastIndex, in order |
| RaftLeader.RequestFailsOnlyOutsideLog | src/SlimCluster.Consensus.Raft/RaftLeaderState.cs:159-179 | building the request throws exactly when a non-zero PrevLogIndex is outside the retained entries, or when entries to send start before them |
| RaftLeader.ReplyHandling | src/SlimCluster.Consensus.Raft/RaftLeaderState.cs:185-222 | success advances NextIndex by the number sent and sets MatchIndex to PrevLogIndex + that number; a refusal with a higher term changes neither index and reports the term; any other refusal decrements NextIndex; a timeout only stamps the time |
| RaftLeader.ExchangeSendsIffContacted | src/SlimCluster.Consensus.Raft/RaftLeaderState.cs:85-101 | a follower is sent one AppendEntries in a tick exactly when it has entries past NextIndex, was never contacted, or its ping interval elapsed; otherwise only its state is ensured |
| RaftLeader.FirstContactIsHeartbeat | src/SlimCluster.Consensus.Raft/RaftLeaderState.cs:92-99 | a follower never contacted is always contacted, with a request that carries no entries |
| RaftLeader.ReplicateAllTracksMembers | src/SlimCluster.Consensus.Raft/RaftLeaderState.cs:85-102 | after a tick every member has a replication state, no other key was added, and at most one request per member was sent |
| RaftLeader.ThenAssociative | src/SlimCluster.Consensus.Raft/RaftLeaderState.cs:85-102 | joining the exchanges of a tick does not depend on grouping |
| RaftLeader.MajorityMatchIsLargestReplicated | src/SlimCluster.Consensus.Raft/RaftLeaderState.cs:143-155 | the majority index is a follower MatchIndex reached by more than NodeCount/2 followers (the leader not counted), and no higher MatchIndex is; with none it is 0 |
| RaftLeader.MajorityCountsFollowersOnly | src/SlimCluster.Consensus.Raft/RaftLeaderState.cs:145-152 | for every follower table and node count, an index has a majority iff twice the number of followers that reached it exceeds the node count (the leader is not counted); with three nodes that is both followers |
| RaftLeader.ApplyAndCommitInOrder | src/SlimCluster.Consensus.Raft/RaftLeaderState.cs:117-137 | the leader applies the entries CommitedIndex+1.. in order and commits each; machine and log both end at CommitedIndex + count, and every waiting client gets the counter its command produced while other pending results are untouched |
| RaftLeader.ApplyAndCommitAdvances | src/SlimCluster.Consensus.Raft/RaftLeaderState.cs:121-130 | the log and state-machine half of the apply/commit pass |
| RaftLeader.ApplyAndCommitCompletes | src/SlimCluster.Consensus.Raft/RaftLeaderState.cs:125-136 | the pending-results half of the apply/commit pass |
| RaftLeader.CountMatchAtLeast | src/SlimCluster.Consensus.Raft/RaftLeaderState.cs:151 | the counting loop returns the number of followers whose MatchIndex is at least m |
| RaftLeader.RaftLeaderState.constructor | src/SlimCluster.Consensus.Raft/RaftLeaderState.cs:48-74 | a new leader state has its term, no replication states and no pending results |
| RaftLeader.RaftLeaderState.EnsureReplicationState | src/SlimCluster.Consensus.Raft/RaftLeaderState.cs:225-237 | the dictionary becomes EnsureState of the old one, and the follower's state is returned |
| RaftLeader.RaftLeaderState.BuildAppendEntries | src/SlimCluster.Consensus.Raft/RaftLeaderState.cs:159-179 | the request read off the log object is the request function's |
| RaftLeader.RaftLeaderState.ReplicateLogWithFollower | src/SlimCluster.Consensus.Raft/RaftLeaderState.cs:157-223 | sends the request to the follower's address, then updates only that follower's state as the reply function says; a failed log read sends nothing and changes nothing |
| RaftLeader.RaftLeaderState.FindMajorityReplicatedIndex | src/SlimCluster.Consensus.Raft/RaftLeaderState.cs:143-155 | the majority index, but never below the commit index |
| RaftLeader.RaftLeaderState.ReplicateToMember | src/SlimCluster.Consensus.Raft/RaftLeaderState.cs:87-101 | one member's turn of the tick matches the exchange function |
| RaftLeader.RaftLeaderState.ReplicateToFollowers | src/SlimCluster.Consensus.Raft/RaftLeaderState.cs:85-102 | the replication loop over all members matches the tick function |
| RaftLeader.RaftLeaderState.ApplyCommitted | src/SlimCluster.Consensus.Raft/RaftLeaderState.cs:117-137 | the commit half of a tick matches the commit-phase function |
| RaftLeader.RaftLeaderState.CommitRange | src/SlimCluster.Consensus.Raft/RaftLeaderState.cs:125-136 | the apply/commit loop matches the apply-and-commit function |
| RaftLeader.RaftLeaderState.OnLoopRun | src/SlimCluster.Consensus.Raft/RaftLeaderState.cs:76-141 | one tick: replication over every member, then, unless an exception was raised, apply and commit up to max(majority index, commit index); newer terms are reported |
| RaftLeader.RaftLeaderState.OnClientRequest | src/SlimCluster.Consensus.Raft/RaftLeaderState.cs:239-250 | appends the command under the leader's term and registers a waiting result for its index |
| RaftConsensus.AdoptTerm | src/SlimCluster.Consensus.Raft/RaftNode.cs:172-175 | a higher term is adopted with the vote cleared; otherwise nothing changes (stated by VoteRules) |
| RaftConsensus.VoteAnswer | src/SlimCluster.Consensus.Raft/RaftNode.cs:177-196 | the answer to a vote request and the vote recorded (stated by VoteRules, OneVotePerTerm and StaleVoteRefused) |
| RaftConsensus.PrevMatches | src/SlimCluster.Consensus.Raft/RaftNode.cs:277-284 | the follower's consistency check (stated by PrevMatchesRule) |
| RaftConsensus.FollowerAppend | src/SlimCluster.Consensus.Raft/RaftNode.cs:286-289 | the follower's log after taking the entries (stated by AcceptedEntriesAreStored) |
| RaftConsensus.FollowerCommit | src/SlimCluster.Consensus.Raft/RaftNode.cs:294-308 | the follower's apply and commit up to the leader's commit index (stated by FollowerAppliesUpToLeaderCommit) |
| RaftConsensus.AcceptAppend | src/SlimCluster.Consensus.Raft/RaftNode.cs:277-308 | check, append, reply and commit of an accepted AppendEntries (tied to the object by ReplicateFromLeader) |
| RaftConsensus.FindSender | src/SlimCluster.Consensus.Raft/RaftNode.cs:323-325 | the first member at an address (stated by FindSenderIsFirstMatch) |
| RaftConsensus.WinsElection | src/SlimCluster.Consensus.Raft/RaftNode.cs:227 | votes are more than NodeCount/2 (stated by WinsElectionIsMoreThanHalf) |
| RaftConsensus.VoteRequests | src/SlimCluster.Consensus.Raft/RaftNode.cs:119-122 | one RequestVote to each other member, in membership order |
| RaftConsensus.VoteRules | src/SlimCluster.Consensus.Raft/RaftNode.cs:167-200 | a vote is granted iff the request's term is not behind, the node has no vote for another node in that term, and the candidate's last index is at least the node's; the reply carries the higher term, and a grant records the vote |
| RaftConsensus.OneVotePerTerm | src/SlimCluster.Consensus.Raft/RaftNode.cs:186-194 | the vote rule alone refuses a second candidate in the same term and keeps the vote with the first; the node as written can still vote twice in a term because winning or stepping down clears its vote (see Findings) |
| RaftConsensus.StaleVoteRefused | src/SlimCluster.Consensus.Raft/RaftNode.cs:178-182 | a request from an older term is refused with the node's term, leaving the vote unchanged |
| RaftConsensus.PrevMatchesRule | src/SlimCluster.Consensus.Raft/RaftNode.cs:277-284 | the consistency check accepts iff the log reaches PrevLogIndex with PrevLogTerm there (index 0 with term 0), and throws only for an erased index |
| RaftConsensus.AcceptedEntriesAreStored | src/SlimCluster.Consensus.Raft/RaftNode.cs:286-289 | after an accepted AppendEntries the follower holds the leader's entries from PrevLogIndex+1 under the request's term, keeps its entries up to PrevLogIndex, and its log stays consistent |
| RaftConsensus.FollowerAppliesUpToLeaderCommit | src/SlimCluster.Consensus.Raft/RaftNode.cs:294-308 | the follower applies and commits exactly up to min(LeaderCommitIndex, LastIndex), in order |
| RaftConsensus.FollowerCommitReads | src/SlimCluster.Consensus.Raft/RaftNode.cs:295-301 | the follower's pass runs over exactly the commands GetLogsAtIndex reads |
| RaftConsensus.WinsElectionIsMoreThanHalf | src/SlimCluster.Consensus.Raft/RaftNode.cs:227 | for every vote set and node count, a candidate wins iff twice its votes (its own included) exceed the node count |
| RaftConsensus.WinningVotesOverlap | src/SlimCluster.Consensus.Raft/RaftNode.cs:227 | two vote sets from the same cluster that both win share a node, so one vote per term per node allows at most one winner per term |
| RaftConsensus.StepDown | src/SlimCluster.Consensus.Raft/RaftNode.cs:125-141 | BecomeFollower run to its end: Follower of the term, no vote, no leader or candidate state, leader timeout from now |
| RaftConsensus.StepDownInsideLeaderLoop | src/SlimCluster.Consensus.Raft/RaftNode.cs:125-135 | BecomeFollower called from inside the leader loop: status, term and cleared vote are set, and the leader state and missing follower state are kept, because the await of the leader state's Stop never returns |
| RaftConsensus.TimerPass | src/SlimCluster.Consensus.Raft/RaftNode.cs:348-376 | the timer half of a tick: an Unknown node steps down; a due election starts the next term with the node's own vote and the drawn deadline; otherwise nothing changes |
| RaftConsensus.HungStepDownNeverElects | src/SlimCluster.Consensus.Raft/RaftLeaderState.cs:203-207 | as written, a leader that learns a newer term from a follower's reply is left Follower holding its leader state and no follower state, and no sequence of timer passes ever starts an election or changes it |
| RaftConsensus.StepDownElectsAfterTimeout | src/SlimCluster.Consensus.Raft/RaftNode.cs:364-374 | after a complete step-down the leader state is gone, and a timer pass starts an election for the next term iff the leader timeout has passed |
| RaftConsensus.BallotStepKeeps | src/SlimCluster.Consensus.Raft/RaftNode.cs:167-200 | with the vote kept while the term stays, one event keeps the votes cast one per term and in agreement with the recorded vote |
| RaftConsensus.KeptVoteOnePerTerm | src/SlimCluster.Consensus.Raft/RaftNode.cs:167-238 | with the vote kept while the term stays, every run of elections, wins, vote requests and step-downs casts at most one vote per term |
| RaftConsensus.ClearedVoteGrantsTwice | src/SlimCluster.Consensus.Raft/RaftNode.cs:232 | as written, a node that wins term 1 (or steps down to it on an AppendEntries) clears its vote and then grants another candidate in term 1: two votes in one term |
| RaftConsensus.FindSenderIsFirstMatch | src/SlimCluster.Consensus.Raft/RaftNode.cs:323-325 | the sender is the first member at the message's address; with none the message is dropped |
| RaftConsensus.RaftNode.constructor | src/SlimCluster.Consensus.Raft/RaftNode.cs:70-76 | a new node has term 0, no vote, no role state and status Unknown |
| RaftConsensus.RaftNode.UpdateTerm | src/SlimCluster.Consensus.Raft/RaftNode.cs:311-315 | sets the term and clears the vote |
| RaftConsensus.RaftNode.BecomeFollower | src/SlimCluster.Consensus.Raft/RaftNode.cs:125-141 | Follower at the given term with no vote, no leader or candidate state, and a fresh follower state with no leader whose deadline is now + LeaderTimeout |
| RaftConsensus.RaftNode.BecomeLeader | src/SlimCluster.Consensus.Raft/RaftNode.cs:143-165 | Leader with a fresh leader state for the current term; the follower state is dropped |
| RaftConsensus.RaftNode.StartElection | src/SlimCluster.Consensus.Raft/RaftNode.cs:102-123 | Candidate for the next term, voted for itself and counted its own vote, with a deadline between now+ElectionTimeoutMin and now+ElectionTimeoutMax, and a RequestVote with its last log index and term sent to every member |
| RaftConsensus.RaftNode.SendVoteRequests | src/SlimCluster.Consensus.Raft/RaftNode.cs:121-122 | the send loop appends exactly the vote requests |
| RaftConsensus.RaftNode.OnRequestVoteRequest | src/SlimCluster.Consensus.Raft/RaftNode.cs:167-200 | a higher term makes the node step down; the node then answers as the vote rules say and records the vote; otherwise the role is unchanged |
| RaftConsensus.RaftNode.OnRequestVoteResponse | src/SlimCluster.Consensus.Raft/RaftNode.cs:202-238 | a higher term makes the node step down. A grant in the current term while Candidate is counted, and a majority makes the node Leader with its vote cleared. Anything else changes nothing |
| RaftConsensus.RaftNode.ReplicateFromLeader | src/SlimCluster.Consensus.Raft/RaftNode.cs:277-308 | consistency check, append, reply and commit match the accept-append function |
| RaftConsensus.RaftNode.MatchesPrev | src/SlimCluster.Consensus.Raft/RaftNode.cs:277-278 | the consistency check read off the log object |
| RaftConsensus.RaftNode.ApplyUpTo | src/SlimCluster.Consensus.Raft/RaftNode.cs:294-308 | the follower's apply/commit matches the follower-commit function |
| RaftConsensus.RaftNode.ApplyRun | src/SlimCluster.Consensus.Raft/RaftNode.cs:302-307 | the follower's apply/commit loop matches the apply-and-commit function |
| RaftConsensus.RaftNode.OnAppendEntriesRequest | src/SlimCluster.Consensus.Raft/RaftNode.cs:253-309 | an older term is refused with the node's term and changes nothing else. Otherwise the node is Follower at the request's term with the sender as leader, and its vote is cleared iff the term rose or it was not already Follower |
| RaftConsensus.RaftNode.OnMessageArrived | src/SlimCluster.Consensus.Raft/RaftNode.cs:379-386 | only Raft messages are queued, with their sender address |
| RaftConsensus.RaftNode.ProcessNextMessage | src/SlimCluster.Consensus.Raft/RaftNode.cs:321-346 | the oldest message is dequeued; it is handled iff its sender is a known member and its type is dispatched, and otherwise nothing else changes; the term never decreases |
| RaftConsensus.RaftNode.CheckTimers | src/SlimCluster.Consensus.Raft/RaftNode.cs:348-376 | an Unknown node becomes Follower of its term; a Candidate past its deadline or a Follower past its leader deadline starts an election; otherwise the tick is idle and changes nothing; the role part ends as TimerPass says; the term never decreases |
| RaftConsensus.RaftNode.OnLoopRun | src/SlimCluster.Consensus.Raft/RaftNode.cs:317-377 | one tick consumes at most one queued message, keeps the role invariant, and never lowers the term |
| RaftConsensus.RaftNode.LeaderTick | src/SlimCluster.Consensus.Raft/RaftNode.cs:240-245 | corrected: the leader state's tick runs as ReplicateAll and CommitPhase say (states, sends, log, machine, pending results), its reported terms are exactly ReplicateAll's and all above the node's term; with none the node stays Leader in its term, otherwise it completes the step-down to the highest reported term (StepDown); the term never decreases |
| RaftConsensus.RaftNode.StepDownFor | src/SlimCluster.Consensus.Raft/RaftNode.cs:240-245 | corrected: OnNewerTermDiscovered run to its end for each reported term above the current one, the others ignored: the node ends at HighestTerm, as a freshly stepped-down Follower when that is above its old term, and otherwise unchanged |
| RaftConsensus.HighestTerm | src/SlimCluster.Consensus.Raft/RaftNode.cs:240-245 | the term a leader tick ends at: not below the node's term, not below any reported term, and equal to one of them |
| RaftLeader.ReportedTermsAreNewer | src/SlimCluster.Consensus.Raft/RaftLeaderState.cs:203-207 | every term a leader tick reports is above the leader's own term |
| RaftConsensus.RaftNode.OnClientRequest | src/SlimCluster.Consensus.Raft/RaftNode.cs:422-430 | without a leader state the request fails with ClusterException and the log is unchanged; otherwise the leader appends it under its term and registers a waiting result for its index; the wait itself is not modelled |
| EventBuffer.BufferValid | src/SlimCluster.Membership.Swim/MembershipEventBuffer.cs:43-94 | the buffer invariant: one event per node, no repeated event, at most capacity-1 items (kept by AddKeepsValid and BumpedKeepsValid) |
| EventBuffer.IsVictim | src/SlimCluster.Membership.Swim/MembershipEventBuffer.cs:75-88 | the eviction victim: first of the most used, then oldest, items (stated by Victim and VictimUnique) |
| EventBuffer.AddEvent | src/SlimCluster.Membership.Swim/MembershipEventBuffer.cs:43-94 | Add(e) as a function (stated by AddDropsDuplicates, AddReplacesOnlyNewer, AddNewNode and AddFailsOnlyForTinyCapacity) |
| EventBuffer.Sort | src/SlimCluster.Membership.Swim/MembershipEventBuffer.cs:105-107 | the selection order of the positions (stated by SortIsOrderedPermutation) |
| EventBuffer.Selected | src/SlimCluster.Membership.Swim/MembershipEventBuffer.cs:105-109 | the positions GetNextEvents(top) picks (stated by SelectedAreLeastUsed) |
| EventBuffer.Picked | src/SlimCluster.Membership.Swim/MembershipEventBuffer.cs:109 | the events at the picked positions, in order |
| EventBuffer.Bumped | src/SlimCluster.Membership.Swim/MembershipEventBuffer.cs:111-112 | the items with the picked use counts raised by one (stated by BumpAll and BumpedKeepsValid) |
| EventBuffer.NodeIndex | src/SlimCluster.Membership.Swim/MembershipEventBuffer.cs:55 | FindIndex: the first position holding an event for the node, or -1 when there is none |
| EventBuffer.Victim | src/SlimCluster.Membership.Swim/MembershipEventBuffer.cs:75-88 | the eviction victim: the first of the most used, then strictly oldest, items; -1 only for an empty list |
| EventBuffer.VictimUnique | src/SlimCluster.Membership.Swim/MembershipEventBuffer.cs:75-88 | at most one position is the victim |
| EventBuffer.MostUsedIndex | src/SlimCluster.Membership.Swim/MembershipEventBuffer.cs:75-88 | the scan loop finds exactly the victim |
| EventBuffer.AddDropsDuplicates | src/SlimCluster.Membership.Swim/MembershipEventBuffer.cs:47-51 | an event with an EventId already stored returns false and changes nothing |
| EventBuffer.AddReplacesOnlyNewer | src/SlimCluster.Membership.Swim/MembershipEventBuffer.cs:55-65 | a new event for a stored node replaces it in place, returning true, iff it is strictly newer; otherwise false and unchanged |
| EventBuffer.AddNewNode | src/SlimCluster.Membership.Swim/MembershipEventBuffer.cs:67-91 | an event for a new node is appended while Count+1 < capacity and otherwise overwrites the victim |
| EventBuffer.AddFailsOnlyForTinyCapacity | src/SlimCluster.Membership.Swim/MembershipEventBuffer.cs:67-90 | Add throws (writing at index -1) exactly when the capacity is at most 1 and the event is new |
| EventBuffer.AddKeepsValid | src/SlimCluster.Membership.Swim/MembershipEventBuffer.cs:43-94 | Add keeps one event per node, no repeated event, and at most capacity-1 items |
| EventBuffer.AcceptedEventIsStored | src/SlimCluster.Membership.Swim/MembershipEventBuffer.cs:53-93 | an accepted event is stored with UsedCount 0 |
| EventBuffer.InsertOrdered | src/SlimCluster.Membership.Swim/MembershipEventBuffer.cs:105-107 | inserting a position keeps the selection order and adds exactly that position |
| EventBuffer.SortIsOrderedPermutation | src/SlimCluster.Membership.Swim/MembershipEventBuffer.cs:105-107 | the selection order lists every position once, sorted by UsedCount ascending, then Timestamp, then position (a stable sort) |
| EventBuffer.SelectedAreLeastUsed | src/SlimCluster.Membership.Swim/MembershipEventBuffer.cs:105-109 | GetNextEvents(top) picks min(top, Count) distinct items, none for a negative top, and every picked item comes before every item left out |
| EventBuffer.OrderedIsDistinct | src/SlimCluster.Membership.Swim/MembershipEventBuffer.cs:105-109 | the picked positions are distinct |
| EventBuffer.BumpAll | src/SlimCluster.Membership.Swim/MembershipEventBuffer.cs:111-112 | the increment loop raises UsedCount by one for exactly the picked items and changes no event |
| EventBuffer.BumpedKeepsValid | src/SlimCluster.Membership.Swim/MembershipEventBuffer.cs:111-112 | raising use counts keeps the buffer valid |
| EventBuffer.MembershipEventBuffer.constructor | src/SlimCluster.Membership.Swim/MembershipEventBuffer.cs:33-36 | an empty buffer with capacity bufferSize |
| EventBuffer.MembershipEventBuffer.Add | src/SlimCluster.Membership.Swim/MembershipEventBuffer.cs:43-94 | Add on the object matches the add function and keeps the buffer valid |
| EventBuffer.MembershipEventBuffer.GetNextEvents | src/SlimCluster.Membership.Swim/MembershipEventBuffer.cs:101-116 | returns the picked events, newer first among equal use counts, and raises their use counts |
| EventBuffer.SwimMembershipEventBuffer.constructor | src/SlimCluster.Membership.Swim/SwimMembershipEventBuffer.cs:29-32 | an empty buffer with capacity bufferSize |
| EventBuffer.SwimMembershipEventBuffer.Add | src/SlimCluster.Membership.Swim/SwimMembershipEventBuffer.cs:39-90 | the same add rules as the newer buffer, and the buffer stays valid |
| EventBuffer.SwimMembershipEventBuffer.GetNextEvents | src/SlimCluster.Membership.Swim/SwimMembershipEventBuffer.cs:97-112 | returns the picked events, older first among equal use counts, and raises their use counts |
| EventBuffer.AddKeepsValidOrFails | src/SlimCluster.Membership.Swim/SwimMembershipEventBuffer.cs:39-90 | a successful Add keeps the buffer valid |
| SwimGossipModule.CallFor | src/SlimCluster.Membership.Swim/SwimGossip.cs:56-68 | the cluster call an accepted event leads to (stated by CallbackOnlyForAcceptedEvents) |
| SwimGossipModule.OnEvent | src/SlimCluster.Membership.Swim/SwimGossip.cs:52-69 | one arriving event: added first, then a cluster call if new (stated by DuplicateEventIsIgnored and JoinedWithoutAddressFails) |
| SwimGossipModule.OnEvents | src/SlimCluster.Membership.Swim/SwimGossip.cs:49-71 | the events of one message in order, stopping at the first failure (stated by OnEventsAppends) |
| SwimGossipModule.DuplicateEventIsIgnored | src/SlimCluster.Membership.Swim/SwimGossip.cs:52 | an event seen before changes nothing |
| SwimGossipModule.CallbackOnlyForAcceptedEvents | src/SlimCluster.Membership.Swim/SwimGossip.cs:52-69 | the cluster is called only for events the buffer accepted, then exactly once: Joined with the parsed address, Left and Faulted as node left |
| SwimGossipModule.JoinedWithoutAddressFails | src/SlimCluster.Membership.Swim/SwimGossip.cs:58-61 | a new Joined event without an address throws ArgumentNullException after it was stored |
| SwimGossipModule.OnEventsAppends | src/SlimCluster.Membership.Swim/SwimGossip.cs:49-71 | processing a message keeps the buffer valid and only appends cluster calls, at most one per event |
| SwimGossipModule.NoEventsNoCalls | src/SlimCluster.Membership.Swim/SwimGossip.cs:44-47 | a message with no events changes nothing |
| SwimGossipModule.SwimGossip.constructor | src/SlimCluster.Membership.Swim/SwimGossip.cs:17-23 | an empty buffer of MembershipEventBufferCount |
| SwimGossipModule.SwimGossip.OnMessageSending | src/SlimCluster.Membership.Swim/SwimGossip.cs:25-40 | Ping and Ack messages get the next MembershipEventPiggybackCount events and those are counted as used; other messages and the buffer are untouched |
| SwimGossipModule.SwimGossip.OnMessageArrived | src/SlimCluster.Membership.Swim/SwimGossip.cs:42-72 | with no events nothing changes; otherwise the events are processed in order as the events function says |
| SwimGossipModule.SwimGossip.ProcessEvent | src/SlimCluster.Membership.Swim/SwimGossip.cs:52-69 | one event: add it, then call the cluster if it was new |
| SwimMembers.Activated | src/SlimCluster.Membership.Swim/SwimMember.cs:49-58 | OnActive as a function (stated by StepGuards and StepNotifiesOnChange) |
| SwimMembers.Confirmed | src/SlimCluster.Membership.Swim/SwimMember.cs:69-77 | OnConfirming as a function (stated by StepGuards) |
| SwimMembers.Suspected | src/SlimCluster.Membership.Swim/SwimMember.cs:79-85 | OnSuspicious as a function (stated by StepGuards and SuspicionPassesThroughConfirming) |
| SwimMembers.MarkedFaulted | src/SlimCluster.Membership.Swim/SwimFailureDetector.cs:173-176 | OnFaulted as a function: any status but Faulted becomes Faulted (stated by FaultedIsFinal) |
| SwimMembers.Step | src/SlimCluster.Membership.Swim/SwimMember.cs:49-85 | one call on the member's transition interface (stated by StepNotifiesOnChange and StepGuards) |
| SwimMembers.Run | src/SlimCluster.Membership.Swim/SwimMember.cs:49-85 | the calls in order (stated by SuspicionPassesThroughConfirming and FaultedIsFinal) |
| SwimMembers.ActiveMembers | src/SlimCluster.Membership.Swim/SwimFailureDetector.cs:119 | the Active members in list order (stated by ActiveMembersAreActive) |
| SwimMembers.ChangeStatus | src/SlimCluster.Membership.Swim/SwimMember.cs:60-67 | the status becomes the new one |
| SwimMembers.StepNotifiesOnChange | src/SlimCluster.Membership.Swim/SwimMember.cs:49-85 | every call that changes the status invokes the callback exactly once, and a no-op call invokes nothing |
| SwimMembers.StepGuards | src/SlimCluster.Membership.Swim/SwimMember.cs:49-85 | Active is entered only from Confirming or Suspicious, Confirming only from Active or Suspicious, and Suspicious only from Confirming |
| SwimMembers.SuspicionPassesThroughConfirming | src/SlimCluster.Membership.Swim/SwimMember.cs:69-85 | a member reaches Suspicious only after having been Confirming; there is no Active to Suspicious shortcut |
| SwimMembers.FaultedIsFinal | src/SlimCluster.Membership.Swim/SwimFailureDetector.cs:176 | no call moves a member out of Faulted |
| SwimMembers.Where | src/SlimCluster.Membership.Swim/SwimFailureDetector.cs:119 | LINQ Where: exactly the positions whose element satisfies the predicate, in increasing order |
| SwimMembers.ActiveMembersAreActive | src/SlimCluster.Membership.Swim/SwimFailureDetector.cs:119 | the Active members are exactly the members whose status is Active |
| SwimMembers.WhereSame | src/SlimCluster.Membership.Swim/SwimFailureDetector.cs:119 | Where depends only on which elements satisfy the predicate |
| SwimMembers.SingleOrDefault | src/SlimCluster.Membership.Swim/SwimFailureDetector.cs:222 | none iff no member has the id; the unique member with the id; InvalidOperation iff two members share it |
| SwimMembers.DrawSubgroup | src/SlimCluster.Membership.Swim/SwimFailureDetector.cs:132-139 | the subgroup loop removes min(k, count) members from the local copy and leaves the selection empty |
| SwimMembers.DrawSubgroupFilled | src/SlimCluster.Membership.Swim/SwimFailureDetector.cs:132-139 | corrected: the draw selects min(k, count) members, and selection plus remainder is exactly the Active members |
| SwimMembers.SwimMember.constructor | src/SlimCluster.Membership.Swim/SwimMember.cs:34-45 | the member holds its id, address, incarnation and status, and LastSeen = Joined |
| SwimMembers.SwimMember.ChangeStatusTo | src/SlimCluster.Membership.Swim/SwimMember.cs:60-67 | sets the status and invokes the callback once |
| SwimMembers.SwimMember.OnActive | src/SlimCluster.Membership.Swim/SwimMember.cs:49-58 | from Confirming or Suspicious: Active, SuspiciousTimeout cleared, LastSeen = now; otherwise nothing |
| SwimMembers.SwimMember.OnConfirming | src/SlimCluster.Membership.Swim/SwimMember.cs:69-77 | from Active or Suspicious: Confirming with SuspiciousTimeout = the period deadline; otherwise nothing |
| SwimMembers.SwimMember.OnSuspicious | src/SlimCluster.Membership.Swim/SwimMember.cs:79-85 | from Confirming: Suspicious; otherwise nothing |
| SwimMembers.SwimMember.OnFaulted | src/SlimCluster.Membership.Swim/SwimFailureDetector.cs:173-176 | any status but Faulted becomes Faulted, with one callback; Faulted stays. The detector calls it only on a target still Confirming |
| SwimFailureDetectorModule.AnsweredTargetStaysActive | src/SlimCluster.Membership.Swim/SwimFailureDetector.cs:166-237 | a target whose Ack arrives within its period is Active again, so the next period does not fault it |
| SwimFailureDetectorModule.SilentTargetIsFaulted | src/SlimCluster.Membership.Swim/SwimFailureDetector.cs:166-206 | a target that never answers is still Confirming at the end of its period and is then Faulted |
| SwimFailureDetectorModule.SwimFailureDetector.constructor | src/SlimCluster.Membership.Swim/SwimFailureDetector.cs:43-57 | starts period 1 with deadline now + ProtocolPeriod and no target |
| SwimFailureDetectorModule.SwimFailureDetector.AdvancePeriod | src/SlimCluster.Membership.Swim/SwimFailureDetector.cs:111-117 | the period number rises by exactly one and the deadline is now + ProtocolPeriod |
| SwimFailureDetectorModule.SwimFailureDetector.DoRun | src/SlimCluster.Membership.Swim/SwimFailureDetector.cs:93-109 | at or after the deadline a new period starts; before it, a passed Ack deadline is cleared (so the indirect phase runs once) and members are untouched |
| SwimFailureDetectorModule.SwimFailureDetector.CheckAckTimeout | src/SlimCluster.Membership.Swim/SwimFailureDetector.cs:103-107 | a passed Ack deadline is cleared and nothing else changes |
| SwimFailureDetectorModule.SwimFailureDetector.OnPingTimeout | src/SlimCluster.Membership.Swim/SwimFailureDetector.cs:121-164 | the indirect phase, as written, sends nothing and changes nothing |
| SwimFailureDetectorModule.SwimFailureDetector.SendPingReqs | src/SlimCluster.Membership.Swim/SwimFailureDetector.cs:149-163 | one PingReq to each selected member, in order |
| SwimFailureDetectorModule.SwimFailureDetector.OnNewPeriod | src/SlimCluster.Membership.Swim/SwimFailureDetector.cs:166-185 | the previous target is Faulted iff still Confirming; the period advances; the new target is the pick among the members that were Active |
| SwimFailureDetectorModule.SwimFailureDetector.DeclareFaulted | src/SlimCluster.Membership.Swim/SwimFailureDetector.cs:171-180 | a Confirming target becomes Faulted, and the set of Active members is unchanged |
| SwimFailureDetectorModule.SwimFailureDetector.SelectMemberForPing | src/SlimCluster.Membership.Swim/SwimFailureDetector.cs:187-218 | with no Active member, target and Ack deadline are cleared. Otherwise the picked Active member is Confirming until the period deadline, its Ack is due now + PingAckTimeout, one Ping with the period number went to it, and every other member is unchanged |
| SwimFailureDetectorModule.SwimFailureDetector.OnPingAckArrived | src/SlimCluster.Membership.Swim/SwimFailureDetector.cs:220-237 | an Ack for the current period makes the one member with that id Active. A stale Ack or unknown id changes nothing, and a shared id throws InvalidOperation |
| SwimProtocolPeriodLoopModule.SilentTargetIsSuspected | src/SlimCluster.Membership.Swim/SwimProtocolPeriodLoop.cs:162-201 | a silent target is Suspicious after its period, and is Confirming again with the new deadline when it is picked next |
| SwimProtocolPeriodLoopModule.SwimProtocolPeriodLoop.constructor | src/SlimCluster.Membership.Swim/SwimProtocolPeriodLoop.cs:41-53 | starts period 1 with deadline now + ProtocolPeriod and no target |
| SwimProtocolPeriodLoopModule.SwimProtocolPeriodLoop.AdvancePeriod | src/SlimCluster.Membership.Swim/SwimProtocolPeriodLoop.cs:107-113 | the period number rises by exactly one and the deadline is now + ProtocolPeriod |
| SwimProtocolPeriodLoopModule.SwimProtocolPeriodLoop.DoRun | src/SlimCluster.Membership.Swim/SwimProtocolPeriodLoop.cs:89-105 | at or after the deadline a new period starts; before it, a passed Ack deadline is cleared once and members are untouched |
| SwimProtocolPeriodLoopModule.SwimProtocolPeriodLoop.CheckAckTimeout | src/SlimCluster.Membership.Swim/SwimProtocolPeriodLoop.cs:99-103 | a passed Ack deadline is cleared and nothing else changes |
| SwimProtocolPeriodLoopModule.SwimProtocolPeriodLoop.OnPingTimeout | src/SlimCluster.Membership.Swim/SwimProtocolPeriodLoop.cs:115-160 | the indirect phase, as written, sends nothing and changes nothing |
| SwimProtocolPeriodLoopModule.SwimProtocolPeriodLoop.SendPingReqs | src/SlimCluster.Membership.Swim/SwimProtocolPeriodLoop.cs:143-159 | one PingReq to each selected member, in order |
| SwimProtocolPeriodLoopModule.SwimProtocolPeriodLoop.OnNewPeriod | src/SlimCluster.Membership.Swim/SwimProtocolPeriodLoop.cs:162-181 | a target still Confirming becomes Suspicious, not Faulted; the period advances and a new target is picked |
| SwimProtocolPeriodLoopModule.SwimProtocolPeriodLoop.SelectMemberForPing | src/SlimCluster.Membership.Swim/SwimProtocolPeriodLoop.cs:183-213 | the target is drawn from all members whatever their status. An empty list clears target and Ack deadline. Otherwise the target is Confirming until the period deadline, its Ack is due now + PingAckTimeout and one Ping went to it |
| SwimClusterMembershipModule.AfterJoin | src/SlimCluster.Membership.Swim/SwimClusterMembership.cs:251-256 | the member ids after a NodeJoined (stated by SelfNeverListed and Joins) |
| SwimClusterMembershipModule.AckTarget | src/SlimCluster.Membership.Swim/SwimClusterMembership.cs:291-314 | which member an Ack activates (stated by AckTargetCases) |
| SwimClusterMembershipModule.SelfNeverListed | src/SlimCluster.Membership.Swim/SwimClusterMembership.cs:251-256 | whatever NodeJoined messages arrive, this node never appears among the other members |
| SwimClusterMembershipModule.Joins | src/SlimCluster.Membership.Swim/SwimClusterMembership.cs:251-256 | joins only extend the member list |
| SwimClusterMembershipModule.RepeatedJoinBreaksAck | src/SlimCluster.Membership.Swim/SwimClusterMembership.cs:252-255 | a node announcing itself twice is listed twice, and every Ack for the current period carrying its id then throws InvalidOperation |
| SwimClusterMembershipModule.AfterJoinOnce | src/SlimCluster.Membership.Swim/SwimClusterMembership.cs:251-256 | corrected NodeJoined: a node already listed is not added again |
| SwimClusterMembershipModule.JoinOnceKeepsAckWorking | src/SlimCluster.Membership.Swim/SwimClusterMembership.cs:251-256 | with repeated announcements ignored the ids stay distinct, this node is never listed, and no Ack throws |
| SwimClusterMembershipModule.AckTargetCases | src/SlimCluster.Membership.Swim/SwimClusterMembership.cs:291-314 | an Ack throws iff the loop runs, the period matches and several members share the id; it activates a member iff exactly one has it |
| SwimClusterMembershipModule.SwimClusterMembership.constructor | src/SlimCluster.Membership.Swim/SwimClusterMembership.cs:48-60 | not started, no members, nothing sent |
| SwimClusterMembershipModule.SwimClusterMembership.SendMessage | src/SlimCluster.Membership.Swim/SwimClusterMembership.cs:160-165 | a send goes out only while the socket exists (started) |
| SwimClusterMembershipModule.SwimClusterMembership.Start | src/SlimCluster.Membership.Swim/SwimClusterMembership.cs:71-104 | a stopped node creates the loop in period 1 and multicasts NodeJoined to 239.1.1.1:60001; starting again does nothing |
| SwimClusterMembershipModule.SwimClusterMembership.Stop | src/SlimCluster.Membership.Swim/SwimClusterMembership.cs:106-153 | the loop is disposed and the node is not started; stopping again does nothing |
| SwimClusterMembershipModule.SwimClusterMembership.NotifyJoined | src/SlimCluster.Membership.Swim/SwimClusterMembership.cs:172-186 | multicasts NodeJoined with this node's id and incarnation 0 |
| SwimClusterMembershipModule.SwimClusterMembership.OnMessage | src/SlimCluster.Membership.Swim/SwimClusterMembership.cs:224-245 | handles the NodeJoined, Ping, PingReq and Ack parts in that order: the member list grows as AfterJoin says, MemberJoined is raised exactly for another node's join, the joined member has the sender's address and the message's incarnation (and is Active, last seen now, when there is no Ack part), the Ping is answered, and the Ack's failure is returned |
| SwimClusterMembershipModule.SwimClusterMembership.OnRequestParts | src/SlimCluster.Membership.Swim/SwimClusterMembership.cs:226-239 | the NodeJoined, Ping and PingReq parts: the member list grows as AfterJoin says; for another node's join, MemberJoined is raised with its id and the new member has the sender's address, the message's incarnation and the Active state last seen now; otherwise MemberJoined is unchanged; the Ping is answered |
| SwimClusterMembershipModule.SwimClusterMembership.OnNodeJoined | src/SlimCluster.Membership.Swim/SwimClusterMembership.cs:247-268 | a NodeJoined from this node is ignored. Any other is appended as a new Active member at the sender's address, even if already listed, and MemberJoined is raised |
| SwimClusterMembershipModule.SwimClusterMembership.OnPing | src/SlimCluster.Membership.Swim/SwimClusterMembership.cs:270-284 | a Ping is answered to its sender with an Ack carrying this node's id and the Ping's period number |
| SwimClusterMembershipModule.SwimClusterMembership.OnPingAck | src/SlimCluster.Membership.Swim/SwimClusterMembership.cs:291-314 | with no loop or another period nothing changes; otherwise the one member with the id becomes Active, a shared id throws InvalidOperation, and no other member changes |
| AliasedSerializer.AddAlias | src/SlimCluster.Serialization.Json/AliasedJsonMessageSerializer.cs:33-34 | Dictionary.Add on both tables (stated by AddAliasKeepsInverse and AddFailsOnClash) |
| AliasedSerializer.RegisterAll | src/SlimCluster.Serialization.Json/AliasedJsonMessageSerializer.cs:25-37 | registering the pairs in order (stated by RegisterAllInverse and RegisterAllFailsOnDuplicate) |
| AliasedSerializer.Flatten | src/SlimCluster.Serialization.Json/AliasedJsonMessageSerializer.cs:29-31 | the pairs of all providers, provider by provider (stated by FlattenPrefix) |
| AliasedSerializer.Inverse | src/SlimCluster.Serialization.Json/AliasedJsonMessageSerializer.cs:25-37 | the two tables undo each other (kept by RegisterAllInverse) |
| AliasedSerializer.Encode | src/SlimCluster.Serialization.Json/AliasedJsonMessageSerializer.cs:77-78 | ASCII encoding: one byte per character, '?' for non-ASCII |
| AliasedSerializer.Decode | src/SlimCluster.Serialization.Json/AliasedJsonMessageSerializer.cs:48-52 | ASCII decoding: one character per byte, '?' above 127 |
| AliasedSerializer.AsciiRoundTrip | src/SlimCluster.Serialization.Json/AliasedJsonMessageSerializer.cs:40-43 | decoding the encoding gives the text back iff the text is ASCII |
| AliasedSerializer.AddAliasKeepsInverse | src/SlimCluster.Serialization.Json/AliasedJsonMessageSerializer.cs:33-34 | adding a fresh alias for a fresh type keeps the two tables inverse |
| AliasedSerializer.RegisterAllInverse | src/SlimCluster.Serialization.Json/AliasedJsonMessageSerializer.cs:25-37 | a successful registration leaves the alias→type and type→alias tables inverse to each other |
| AliasedSerializer.RegisteredPairsPresent | src/SlimCluster.Serialization.Json/AliasedJsonMessageSerializer.cs:25-37 | every registered pair is in both tables |
| AliasedSerializer.OnlyRegisteredPairs | src/SlimCluster.Serialization.Json/AliasedJsonMessageSerializer.cs:25-37 | the tables hold only registered aliases and types |
| AliasedSerializer.DuplicateSplit | src/SlimCluster.Serialization.Json/AliasedJsonMessageSerializer.cs:29-36 | a list has a duplicate iff its front has one or its last pair clashes with the front |
| AliasedSerializer.AddFailsOnClash | src/SlimCluster.Serialization.Json/AliasedJsonMessageSerializer.cs:33-34 | after a successful registration, adding a pair throws iff its alias or type is already registered |
| AliasedSerializer.RegisterAllFailsOnDuplicate | src/SlimCluster.Serialization.Json/AliasedJsonMessageSerializer.cs:25-37 | registration throws ArgumentException iff some alias or some type occurs twice |
| AliasedSerializer.RegisterStep | src/SlimCluster.Serialization.Json/AliasedJsonMessageSerializer.cs:31-35 | registering one more pair is one more Add on both tables |
| AliasedSerializer.RegisterPrefix | src/SlimCluster.Serialization.Json/AliasedJsonMessageSerializer.cs:29-36 | a registration that succeeds succeeded on every prefix |
| AliasedSerializer.Frame | src/SlimCluster.Serialization.Json/AliasedJsonMessageSerializer.cs:74-78 | the frame is 1 + alias + body bytes long: byte 0 is the alias length cast to a byte, then the alias bytes, then the body bytes |
| AliasedSerializer.ReadFrame | src/SlimCluster.Serialization.Json/AliasedJsonMessageSerializer.cs:47-52 | the alias is the next byte-0 count of bytes and the body is the rest; an empty payload throws IndexOutOfRange, and a count running past the end ArgumentOutOfRange |
| AliasedSerializer.FrameRoundTrip | src/SlimCluster.Serialization.Json/AliasedJsonMessageSerializer.cs:45-80 | a frame whose alias has at most 255 bytes reads back as (alias, body) |
| AliasedSerializer.LongAliasIsMisread | src/SlimCluster.Serialization.Json/AliasedJsonMessageSerializer.cs:76 | a 256-byte alias is announced as 0 bytes and reads back as an empty alias with the alias glued onto the body |
| AliasedSerializer.FirstAliased | src/SlimCluster.Serialization.Json/AliasedJsonMessageSerializer.cs:59-62 | the nearest type of the chain that has an alias, and its alias; none when no type up to object has one |
| AliasedSerializer.AliasedJsonMessageSerializer.FromAliases | src/SlimCluster.Serialization.Json/AliasedJsonMessageSerializer.cs:13-14 | a serializer over the given tables |
| AliasedSerializer.AliasedJsonMessageSerializer.Create | src/SlimCluster.Serialization.Json/AliasedJsonMessageSerializer.cs:16-38 | the nested registration loops succeed with exactly the registration function's tables, or throw ArgumentException exactly when it does |
| AliasedSerializer.AliasedJsonMessageSerializer.Abandon | src/SlimCluster.Serialization.Json/AliasedJsonMessageSerializer.cs:33-34 | a pair that cannot be added makes the whole registration fail |
| AliasedSerializer.AliasedJsonMessageSerializer.FlattenPrefix | src/SlimCluster.Serialization.Json/AliasedJsonMessageSerializer.cs:29-31 | the pairs visited so far by the nested loops start the flattened list |
| AliasedSerializer.AliasedJsonMessageSerializer.FindAlias | src/SlimCluster.Serialization.Json/AliasedJsonMessageSerializer.cs:59-62 | the walk up the base types finds the alias of the nearest aliased type, or none |
| AliasedSerializer.AliasedJsonMessageSerializer.Serialize | src/SlimCluster.Serialization.Json/AliasedJsonMessageSerializer.cs:57-81 | a message with no aliased type throws InvalidOperation; otherwise the payload is the frame of its alias and JSON bytes |
| AliasedSerializer.AliasedJsonMessageSerializer.WriteFrame | src/SlimCluster.Serialization.Json/AliasedJsonMessageSerializer.cs:69-80 | the allocated payload holds exactly the frame |
| AliasedSerializer.AliasedJsonMessageSerializer.CopyInto | src/SlimCluster.Serialization.Json/AliasedJsonMessageSerializer.cs:77-78 | GetBytes into a span writes the bytes at the offset and leaves every other byte alone |
| AliasedSerializer.AliasedJsonMessageSerializer.Deserialize | src/SlimCluster.Serialization.Json/AliasedJsonMessageSerializer.cs:45-55 | the type registered for the frame's alias and the body text; an unknown alias throws KeyNotFound |
| AliasedSerializer.AliasedJsonMessageSerializer.SerializeRoundTrip | src/SlimCluster.Serialization.Json/AliasedJsonMessageSerializer.cs:45-81 | Deserialize(Serialize(msg)) gives the nearest aliased type and the JSON text, for ASCII alias and text, an alias of at most 255 bytes, and inverse tables |
| IpEndPoint.AddressToString | src/SlimCluster.Transport.Ip/IPEndPointAddress.cs:9 | the dotted-quad form of an address (stated by AddressRoundTrip) |
| IpEndPoint.ToString | src/SlimCluster.Transport.Ip/IPEndPointAddress.cs:9 | the end point as "a.b.c.d:port" (stated by ToStringParseRoundTrip) |
| IpEndPoint.Parse | src/SlimCluster.Transport.Ip/IPEndPointAddress.cs:18-28 | Parse: exactly two non-empty pieces, then IPAddress.Parse, int.Parse and the port range (stated by ParseNeedsTwoPieces, ParseJoined and ToStringParseRoundTrip) |
| IpEndPoint.Split | src/SlimCluster.Transport.Ip/IPEndPointAddress.cs:20 | Split with RemoveEmptyEntries: every piece is non-empty and free of the separator |
| IpEndPoint.NatToStringRoundTrip | src/SlimCluster.Transport.Ip/IPEndPointAddress.cs:9 | the decimal form of a number is canonical and parses back to the number |
| IpEndPoint.ParseIPAddress | src/SlimCluster.Transport.Ip/IPEndPointAddress.cs:26 | IPAddress.Parse of IPv4 text: one to four dot-separated decimal, octal or hex parts; a parsed address has four octets in 0..255 (its forms are stated by ParseDotted, TwoPartForm, OnePartForm and AddressRoundTrip) |
| IpEndPoint.ParsePart | src/SlimCluster.Transport.Ip/IPEndPointAddress.cs:26 | one part: "0x"/"0X" hex, a leading '0' octal, else decimal; at most 0xFFFFFFFF |
| IpEndPoint.ParseParts | src/SlimCluster.Transport.Ip/IPEndPointAddress.cs:26 | all parts parse, each to its own value, or none |
| IpEndPoint.Assemble | src/SlimCluster.Transport.Ip/IPEndPointAddress.cs:26 | one to four part values make a valid address: earlier parts are bytes, the last fills the low-order bytes |
| IpEndPoint.DecimalIsBase10 | src/SlimCluster.Transport.Ip/IPEndPointAddress.cs:26 | a decimal digit string is a base-10 string with the same value |
| IpEndPoint.DecimalPart | src/SlimCluster.Transport.Ip/IPEndPointAddress.cs:26 | a canonical decimal part parses to its decimal value |
| IpEndPoint.OctalPart | src/SlimCluster.Transport.Ip/IPEndPointAddress.cs:26 | a leading '0' part parses iff the rest is octal digits in range, to their octal value |
| IpEndPoint.HexPart | src/SlimCluster.Transport.Ip/IPEndPointAddress.cs:26 | a "0x" part parses iff at least one hex digit follows and the value is in range |
| IpEndPoint.SplitJoinDots | src/SlimCluster.Transport.Ip/IPEndPointAddress.cs:26 | dot-free parts joined by '.' split back into those parts |
| IpEndPoint.ParseDotted | src/SlimCluster.Transport.Ip/IPEndPointAddress.cs:26 | one to four parsing parts within their byte limits give the assembled address |
| IpEndPoint.TwoPartForm | src/SlimCluster.Transport.Ip/IPEndPointAddress.cs:26 | "a.n" is byte a followed by n over the three low bytes ("127.1" is 127.0.0.1) |
| IpEndPoint.OnePartForm | src/SlimCluster.Transport.Ip/IPEndPointAddress.cs:26 | a single part is the whole 32-bit address |
| IpEndPoint.TrimWhite | src/SlimCluster.Transport.Ip/IPEndPointAddress.cs:26 | the leading white space is gone and nothing is added |
| IpEndPoint.DigitRun | src/SlimCluster.Transport.Ip/IPEndPointAddress.cs:26 | the length of the leading run of digits: all before it are digits, the next is not |
| IpEndPoint.ParseInt | src/SlimCluster.Transport.Ip/IPEndPointAddress.cs:26 | int.Parse: white space, optional sign, digits, white space; a parsed value is within the 32-bit range |
| IpEndPoint.SignedResult | src/SlimCluster.Transport.Ip/IPEndPointAddress.cs:26 | the signed value iff it is within the 32-bit range, otherwise Overflow |
| IpEndPoint.ParseIntNumeral | src/SlimCluster.Transport.Ip/IPEndPointAddress.cs:26 | a signed numeral with white space around it parses to its signed value or Overflow |
| IpEndPoint.ParseIntOfNatToString | src/SlimCluster.Transport.Ip/IPEndPointAddress.cs:26 | the decimal form of a 32-bit number parses back to it |
| IpEndPoint.ParseJoined | src/SlimCluster.Transport.Ip/IPEndPointAddress.cs:18-28 | an address piece and a port piece joined by ':' give the address with the port's outcome: its Format or Overflow error, or ArgumentOutOfRange outside 0..65535 |
| IpEndPoint.PaddedPortAccepted | src/SlimCluster.Transport.Ip/IPEndPointAddress.cs:20-27 | white space around the port and a '+' sign give the same end point |
| IpEndPoint.NegativePortRefused | src/SlimCluster.Transport.Ip/IPEndPointAddress.cs:26 | a negative port is ArgumentOutOfRange, and Overflow past the 32-bit range |
| IpEndPoint.Equals | src/SlimCluster.Transport.Ip/IPEndPointAddress.cs:11 | true iff the other object is an IPEndPointAddress with an equal end point |
| IpEndPoint.ParseNeedsTwoPieces | src/SlimCluster.Transport.Ip/IPEndPointAddress.cs:20-24 | Parse throws ApplicationException unless the split gives exactly two pieces |
| IpEndPoint.SplitTwo | src/SlimCluster.Transport.Ip/IPEndPointAddress.cs:20 | two non-empty pieces joined by one ':' split back into themselves |
| IpEndPoint.SplitDropsEmptyPiece | src/SlimCluster.Transport.Ip/IPEndPointAddress.cs:20-21 | a doubled ':' splits like a single one |
| IpEndPoint.AddressRoundTrip | src/SlimCluster.Transport.Ip/IPEndPointAddress.cs:26 | the printed dotted quad parses back to the same address |
| IpEndPoint.ToStringParseRoundTrip | src/SlimCluster.Transport.Ip/IPEndPointAddress.cs:9-28 | Parse(ToString(a)) == a for every valid end point, so "a.b.c.d:port" survives the round trip |
| IpEndPoint.DoubledColonAccepted | src/SlimCluster.Transport.Ip/IPEndPointAddress.cs:20-27 | "a.b.c.d::port" parses to the same address as "a.b.c.d:port" |
| IpEndPoint.EqualsIsEndPointEquality | src/SlimCluster.Transport.Ip/IPEndPointAddress.cs:11-32 | equality is by end point only, symmetric, and false against another kind of object or null |

## Left out

- **Concurrency, timers and async.** These are left out:
  - timers, `Task`s and `await`;
  - the `timerMethodRunning` re-entrancy guard;
  - locks and the receive loop;
  - cancellation.

  Each timer tick or handler call is one method call, run to completion.
- **Logging.** Not modelled. It has no effect on state.
- **Options.** They are constants at their default values: ElectionTimeoutMin/Max, LeaderTimeout, LeaderPingInterval, RequestTimeout, ProtocolPeriod, PingAckTimeout, FailureDetectionSubgroupSize, MembershipEventBufferCount, MembershipEventPiggybackCount, multicast group and port. The Raft NodeCount has no default, so it is a constructor parameter.
- **Randomness.**
  - The ping target is an index parameter.
  - The election deadline is a parameter constrained to [now+ElectionTimeoutMin, now+ElectionTimeoutMax).
  - The j-th `random.Next(n)` of the subgroup draw is `draws[j] % n`.
- **The shared member list.** The cluster and its loop share a live list. The SWIM loops instead receive the current member list on each call.
- **The loop's transport.** The older loop puts its messages in its own outbox instead of sending them through the cluster's socket.
- **Raft transport.**
  - The leader's awaited reply is the `replies` parameter.
  - Requests to several followers run one after another in member order, not in parallel.
- **Serialization of log entries and messages.** Not modelled. Log entries are the counter commands directly, and JSON bodies are opaque text.
- **The `JsonConvert` result.** The null it can return is not modelled. That is the ArgumentNullException at AliasedJsonMessageSerializer.cs:53-54.
- **Encodings other than ASCII.** Not modelled. ASCII is the default the serializer is created with.
- **Persistence.** The persistence of the Raft node (OnStateRestore, OnStatePersist) and the state machine's unsupported Snapshot/Restore are left out. The latter is modelled only as NotImplemented.
- **Waiting for client results.** The client request's waiting loop (up to RequestTimeout) is left out. Only the append and the registration of the pending result are modelled; the result itself is completed by the leader's commit pass.
- **Node lifecycle and dispatch.** Left out:
  - the start/stop lifecycle of the Raft node and the leader loop;
  - the AutoStart option;
  - the CanHandle dispatch predicate.
- **SWIM member.**
  - `LastPing` is never assigned by the source and is not modelled.
  - `OnFaulted` and the Faulted status are missing from the member class. The newer failure detector calls them, only on a target still Confirming. They are modelled as "any status but Faulted becomes Faulted".
- **Time for OnActive.** The cluster calls `OnActive()` with no time argument, while the detector passes its clock. Both are modelled with a `now` parameter.
- **NodeLeft messages.** The cluster ignores them (its `OnMessage` never looks at them), and so does the model.
- **Calls into the cluster.** `SwimGossip` calls `OnNodeJoined(id, endPoint)` and `OnNodeLeft(id)` on the cluster, but the cluster has no such public methods. These calls are recorded as a list of cluster calls.
- **The address parser used by gossip.** `SwimGossip` (SwimGossip.cs:62) calls `IPEndPointAddress.Parse`, which inside its own namespace names the SWIM copy of the class (SlimCluster.Membership.Swim/IPEndPointAddress.cs:5-12), and that copy has no `Parse`. `SwimGossipModule.CallFor` uses the transport's parser, `IpEndPoint.Parse`.
- **MembershipEventType.cs is not part of this model.** The event types Joined, Left and Faulted are taken from their uses in SwimGossip.cs.
- **Long overflow.** The period sequence number is a `long`, and its overflow is not modelled.
- **Int32 overflow in Raft, ports and event use counts.** Terms (`_currentTerm + 1` at RaftNode.cs:107), log indices, NextIndex and MatchIndex, the end point's port, and the event buffers' `UsedCount++` (MembershipEventBuffer.cs:27, SwimMembershipEventBuffer.cs:23) are unbounded integers; their 32-bit wrap-around is not modelled. The counter's wrap-around is modelled.
- **The `MemberJoined` handler.** Exceptions it throws are swallowed by the source and not modelled.
- EventBuffer.MembershipEventBuffer.constructor: requires `bufferSize >= 0`, which `new List<T>(capacity)` enforces by throwing.
- EventBuffer.SwimMembershipEventBuffer.constructor: requires `bufferSize >= 0`, for the same reason.
- SwimClusterMembershipModule.SwimClusterMembership.OnMessage: does not repeat which member the Ack part activates, so the joined member's state is stated only for a message without an Ack part. OnPingAck states the activation.
- RaftConsensus.RaftNode.OnLoopRun: states only the message queue, the role invariant and that the term never decreases. Each half of the tick is fully specified by ProcessNextMessage and CheckTimers.
- RaftConsensus.RaftNode.BecomeFollower: the source calls the follower state's constructor without the term (RaftNode.cs:140 against RaftFollowerState.cs:15). The model passes the new term.
- RaftConsensus.RaftNode.constructor: the source sets status `RaftNodeStatus.Unknown`, which RaftNodeStatus.cs does not define. The model adds an Unknown status.
- RaftConsensus.RaftNode.OnAppendEntriesRequest: entries are stored with the request's term, as written, and through the corrected append (see Findings).
- RaftConsensus.RaftNode.LeaderTick: the class completes the step-down, which is the corrected behaviour (see Findings). The as-written hang is modelled on role values by StepDownInsideLeaderLoop and HungStepDownNeverElects. A later message with a higher term runs BecomeFollower again from the node's own loop; that recovery path is not modelled.
- RaftConsensus.RaftNode.StepDownFor: completes each BecomeFollower, as LeaderTick does; the as-written hang is the same one (see Findings). As written, each follower exchange is its own task: when two report newer terms in one tick, the first BecomeFollower hangs in Stop, the second finds Stop already under way and completes the step-down at its own term, whichever reply arrived last, even a lower one. The model takes the reports in member order and skips a term not above the current one (Raft's rule), so the node ends at the highest; the interleaving of the tasks is not modelled.
- RaftConsensus.RaftNode.OnRequestVoteResponse: the class clears the vote on winning, as written. The vote history this allows is modelled on values by ClearedVoteGrantsTwice, and the corrected rule by KeptVoteOnePerTerm (see Findings).
- IpEndPoint.ParseInt: the culture's sign strings are taken to be '+' and '-'.
- IpEndPoint.ParseIPAddress: only IPv4 text is modelled. A piece of the ':'-split can hold no ':', so it is never IPv6 text.

## Findings

| source | as written | input that shows it | evidently intended | confidence | as-written member | corrected member |
|---|---|---|---|---|---|---|
| src/SlimCluster.Consensus.Raft/Logs/InMemoryLogRepository.cs:47 | `Append(index, term, entries)` throws when `index > LastIndex.Index` | a follower with LastIndex 3 receives entries with PrevLogIndex 3, so RaftNode.cs:288 calls Append(4, …) | appending at LastIndex+1 (extending the log) is allowed | high, not executed | RaftLog.AppendPastEndRefused | RaftLog.AppendFromWrites |
| src/SlimCluster.Consensus.Raft/Logs/InMemoryLogRepository.cs:63 | `LastIndex` is set to the loop counter after its last increment | Append(3, t, [e]) on a log holding entries 1..3 leaves three entries but LastIndex 4 | LastIndex names the last entry written, (index + count - 1, term) | high, not executed | RaftLog.AppendRangeOvershoots | RaftLog.AppendFromWrites |
| src/SlimCluster.Consensus.Raft/RaftLeaderState.cs:203-207 | a follower's reply with a higher term makes the leader loop call OnNewerTermDiscovered, whose BecomeFollower awaits the leader state's Stop, which awaits the loop task that is itself waiting (src/SlimCluster.Host/Common/TaskLoop.cs:64-66) | a leader of term 1 receives an AppendEntries reply with term 2 | the leader steps down completely: Follower of term 2, leader state dropped, a fresh follower state, so an election follows the leader timeout | medium, not executed | RaftConsensus.HungStepDownNeverElects | RaftConsensus.RaftNode.LeaderTick |
| src/SlimCluster.Consensus.Raft/RaftNode.cs:232 | winning an election clears `_votedFor` while the term stays; so does BecomeFollower on an AppendEntries of the same term (RaftNode.cs:270-274, 314) | node a wins term 1, then a RequestVote from b for term 1 with an up-to-date log arrives | at most one vote per term: the vote is kept while the term is unchanged | high, not executed | RaftConsensus.ClearedVoteGrantsTwice | RaftConsensus.KeptVoteOnePerTerm |
| src/SlimCluster.Membership.Swim/SwimFailureDetector.cs:132-139 | the subgroup loop removes members from `activeMembers` but never adds them to `selectedMembers`; the same loop is in SwimProtocolPeriodLoop.cs:126-133 | a ping times out with three Active members and subgroup size 3: no PingReq is sent | the removed members form the subgroup that receives PingReq | high, not executed | SwimMembers.DrawSubgroup | SwimMembers.DrawSubgroupFilled |
| src/SlimCluster.Membership.Swim/SwimClusterMembership.cs:252-255 | every NodeJoined from another node appends a member, even one already listed | node b multicasts NodeJoined twice, then acks a ping: SingleOrDefault throws InvalidOperation | a node already listed is not added again | high, not executed | SwimClusterMembershipModule.RepeatedJoinBreaksAck | SwimClusterMembershipModule.JoinOnceKeepsAckWorking |
