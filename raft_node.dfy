/** The Raft node (RaftNode): role transitions between Unknown, Follower,
    Candidate and Leader, the vote and append handlers, election timers and
    the message queue.

    Cluster membership is a per-call parameter (`members`, the other
    members); the clock reading `now` and the randomly drawn election
    deadline are parameters too.  Messages handed to the transport are
    appended to `outbox`. */
module RaftConsensus {
  import opened Common
  import opened RaftLog
  import opened CounterService
  import opened RaftMessages
  import opened IpEndPoint
  import RaftOptions
  import opened RaftLeader
  import opened RaftCandidate
  import opened RaftFollower

  datatype NodeStatus = Unknown | Follower | Candidate | Leader

  // ---------------------------------------------------------------------
  // Decisions

  /** A higher term is adopted and resets the vote; otherwise nothing changes. */
  function AdoptTerm(currentTerm: int, votedFor: Option<NodeId>, term: int): (int, Option<NodeId>) {
    if term > currentTerm then (term, None) else (currentTerm, votedFor)
  }

  /** The answer to a vote request (after any higher term was adopted) and the vote recorded. */
  function VoteAnswer(currentTerm: int, votedFor: Option<NodeId>, lastLogIndex: int, r: RequestVoteRequest, from: NodeId): (RequestVoteResponse, Option<NodeId>) {
    if r.term < currentTerm then (RequestVoteResponse(false, currentTerm), votedFor)
    else if (votedFor.None? || votedFor == Some(from)) && lastLogIndex <= r.lastLogIndex then
      (RequestVoteResponse(true, r.term), Some(from))
    else (RequestVoteResponse(false, r.term), votedFor)
  }

  /** Whether the follower's log holds PrevLogIndex with PrevLogTerm; the
      term lookup throws when PrevLogIndex lies before the retained entries. */
  function PrevMatches(log: LogState, prevLogIndex: int, prevLogTerm: int): Result<bool> {
    if log.lastIndex.index < prevLogIndex then Ok(false)
    else if prevLogIndex == 0 then Ok(prevLogTerm == 0)
    else if prevLogIndex > 0 then
      var t :- TermAt(log, prevLogIndex);
      Ok(t == prevLogTerm)
    else Ok(true)
  }

  /** The follower's log after taking the request's entries (none: unchanged). */
  function FollowerAppend(log: LogState, r: AppendEntriesRequest): Result<LogState> {
    if r.entries.Some? && |r.entries.value| > 0 then AppendFrom(log, r.prevLogIndex + 1, r.term, r.entries.value)
    else Ok(log)
  }

  /** Applying and committing what the leader has committed, up to the follower's last index. */
  function FollowerCommit(log: LogState, machine: CounterState, leaderCommitIndex: int): CommitRun {
    var c := log.commitedIndex;
    if leaderCommitIndex <= c then CommitRun(log, machine, map[], Done)
    else match LogsAt(log, c + 1, Min(leaderCommitIndex, log.lastIndex.index) - c)
      case Err(e) => CommitRun(log, machine, map[], Failed(e))
      case Ok(cmds) => ApplyAndCommit(log, machine, map[], cmds, c + 1)
  }

  /** A follower's handling of an AppendEntries from a leader of its term:
      the new log and state machine, the reply sent, and any exception. */
  datatype FollowerStep = FollowerStep(log: LogState, machine: CounterState, reply: Option<AppendEntriesResponse>, outcome: Outcome)

  function AcceptAppend(log: LogState, machine: CounterState, r: AppendEntriesRequest, currentTerm: int): FollowerStep {
    match PrevMatches(log, r.prevLogIndex, r.prevLogTerm)
    case Err(e) => FollowerStep(log, machine, None, Failed(e))
    case Ok(false) => FollowerStep(log, machine, Some(AppendEntriesResponse(false, currentTerm)), Done)
    case Ok(true) =>
      match FollowerAppend(log, r)
      case Err(e) => FollowerStep(log, machine, None, Failed(e))
      case Ok(log1) =>
        var run := FollowerCommit(log1, machine, r.leaderCommitIndex);
        FollowerStep(run.log, run.machine, Some(AppendEntriesResponse(true, currentTerm)), run.outcome)
  }

  /** A candidate wins with votes from more than NodeCount/2 nodes (its own included). */
  predicate WinsElection(votes: set<NodeId>, nodeCount: int) {
    |votes| > HalfTowardZero(nodeCount)
  }

  /** One RequestVote to every other member, in membership order. */
  function VoteRequests(members: seq<Member>, r: RequestVoteRequest): (sent: seq<Sent>)
    ensures |sent| == |members|
    ensures forall k :: 0 <= k < |members| ==> sent[k] == Sent(RequestVote(r), members[k].address)
    decreases |members|
  {
    if members == [] then [] else [Sent(RequestVote(r), members[0].address)] + VoteRequests(members[1..], r)
  }

  /** The first member whose address equals `address`. */
  function FindSender(members: seq<Member>, address: IPEndPointAddress): Option<Member>
    decreases |members|
  {
    if members == [] then None
    else if Equals(members[0].address, AnIPEndPointAddress(address)) then Some(members[0])
    else FindSender(members[1..], address)
  }

  function Replies(reply: Option<AppendEntriesResponse>, to: IPEndPointAddress): seq<Sent> {
    if reply.Some? then [Sent(AppendEntriesReply(reply.value), to)] else []
  }

  // ---------------------------------------------------------------------
  // Properties

  /** A vote is granted exactly when the request's term is not behind the
      (possibly adopted) term, the node has not voted for someone else in it,
      and the candidate's last index is at least the node's own; the answer
      carries the higher of the two terms, and a grant records the vote. */
  lemma VoteRules(currentTerm: int, votedFor: Option<NodeId>, lastLogIndex: int, r: RequestVoteRequest, from: NodeId)
    ensures var (t, v) := AdoptTerm(currentTerm, votedFor, r.term);
            var (resp, v2) := VoteAnswer(t, v, lastLogIndex, r, from);
            && (resp.voteGranted <==> (r.term >= currentTerm && (r.term > currentTerm || votedFor.None? || votedFor == Some(from)) && lastLogIndex <= r.lastLogIndex))
            && resp.term == Max(currentTerm, r.term)
            && t == Max(currentTerm, r.term)
            && (resp.voteGranted ==> v2 == Some(from))
            && (!resp.voteGranted ==> v2 == v)
  {
  }

  /** Within one term a node grants its vote to at most one candidate: once
      it voted for `a`, a request from any `b` other than `a` in that same
      term is refused and the vote stays with `a`. */
  lemma OneVotePerTerm(currentTerm: int, votedFor: Option<NodeId>, lastLogIndex: int, r1: RequestVoteRequest, a: NodeId, r2: RequestVoteRequest, b: NodeId)
    requires r1.term == r2.term == currentTerm
    requires a != b
    ensures var (resp1, v1) := VoteAnswer(currentTerm, votedFor, lastLogIndex, r1, a);
            resp1.voteGranted ==>
              var (resp2, v2) := VoteAnswer(currentTerm, v1, lastLogIndex, r2, b);
              !resp2.voteGranted && v2 == Some(a)
  {
  }

  /** A request from an older term is refused with the node's term. */
  lemma StaleVoteRefused(currentTerm: int, votedFor: Option<NodeId>, lastLogIndex: int, r: RequestVoteRequest, from: NodeId)
    requires r.term < currentTerm
    ensures VoteAnswer(currentTerm, votedFor, lastLogIndex, r, from) == (RequestVoteResponse(false, currentTerm), votedFor)
  {
  }

  /** In a consistent log the consistency check accepts exactly when the log
      reaches PrevLogIndex with PrevLogTerm there (index 0 standing for the
      empty prefix, with term 0), and throws only for an index already erased. */
  lemma {:induction false} PrevMatchesRule(log: LogState, prevLogIndex: int, prevLogTerm: int)
    requires Consistent(log)
    requires prevLogIndex >= 0
    ensures PrevMatches(log, prevLogIndex, prevLogTerm).Err? <==> 0 < prevLogIndex <= log.lastIndex.index && prevLogIndex < log.startIndex
    ensures PrevMatches(log, prevLogIndex, prevLogTerm) == Ok(true) <==>
              && prevLogIndex <= log.lastIndex.index
              && (prevLogIndex == 0 ==> prevLogTerm == 0)
              && (prevLogIndex > 0 ==> EntryAt(log, prevLogIndex).Ok? && EntryAt(log, prevLogIndex).value.term == prevLogTerm)
  {
    TermAtMatchesEntryAt(log, prevLogIndex);
  }

  /** After an AppendEntries with entries whose PrevLogIndex the follower's
      log reaches (the consistency check passed), the follower holds the
      leader's entries at PrevLogIndex+1, ... under the request's term, keeps
      its own entries up to PrevLogIndex, its last index is that of the last
      new entry, and its log stays consistent. */
  lemma {:induction false} AcceptedEntriesAreStored(log: LogState, r: AppendEntriesRequest)
    requires Consistent(log)
    requires r.entries.Some? && |r.entries.value| > 0
    requires log.startIndex <= r.prevLogIndex + 1 <= log.lastIndex.index + 1
    ensures FollowerAppend(log, r).Ok?
    ensures var t := FollowerAppend(log, r).value;
            && Consistent(t)
            && t.lastIndex == LogIndex(r.prevLogIndex + |r.entries.value|, r.term)
            && (forall i :: log.startIndex <= i <= r.prevLogIndex ==> EntryAt(t, i) == EntryAt(log, i))
            && (forall i :: r.prevLogIndex < i <= r.prevLogIndex + |r.entries.value| ==>
                  EntryAt(t, i) == Ok(LogEntry(i, r.term, r.entries.value[i - r.prevLogIndex - 1])))
  {
    var index, es := r.prevLogIndex + 1, r.entries.value;
    AppendFromWrites(log, index, r.term, es);
    var t := AppendFrom(log, index, r.term, es).value;
    assert FollowerAppend(log, r) == Ok(t);
    forall i | r.prevLogIndex < i <= r.prevLogIndex + |es|
      ensures EntryAt(t, i) == Ok(LogEntry(i, r.term, es[i - r.prevLogIndex - 1]))
    {
      assert index <= i < index + |es|;
    }
  }

  /** A follower whose machine stands at its commit index applies and commits
      exactly the entries up to min(LeaderCommitIndex, LastIndex), in order. */
  lemma {:induction false} FollowerAppliesUpToLeaderCommit(log: LogState, machine: CounterState, leaderCommitIndex: int)
    requires Consistent(log)
    requires machine.index == log.commitedIndex <= log.lastIndex.index
    requires log.commitedIndex + 1 >= log.startIndex
    requires forall i :: log.commitedIndex < i <= log.lastIndex.index ==> EntryAt(log, i).Ok? && Supported(EntryAt(log, i).value.entry)
    ensures var run := FollowerCommit(log, machine, leaderCommitIndex);
            var h := Max(log.commitedIndex, Min(leaderCommitIndex, log.lastIndex.index));
            && run.outcome == Done
            && run.log == log.(commitedIndex := h)
            && run.machine.index == h
            && (h > log.commitedIndex ==> run.machine == ApplyFrom(machine, LogsAt(log, log.commitedIndex + 1, h - log.commitedIndex).value, machine.index + 1).0)
  {
    var c := log.commitedIndex;
    if leaderCommitIndex > c {
      var n := Min(leaderCommitIndex, log.lastIndex.index) - c;
      FollowerCommitReads(log, machine, leaderCommitIndex, n);
      var cmds := LogsAt(log, c + 1, n).value;
      RangeSupported(log, c, n, cmds);
      ApplyAndCommitInOrder(log, machine, map[], cmds);
    }
  }

  /** Past the commit index, the follower's pass runs over the `n` commands LogsAt reads. */
  lemma FollowerCommitReads(log: LogState, machine: CounterState, leaderCommitIndex: int, n: int)
    requires Consistent(log)
    requires log.commitedIndex <= log.lastIndex.index
    requires log.commitedIndex + 1 >= log.startIndex
    requires leaderCommitIndex > log.commitedIndex
    requires n == Min(leaderCommitIndex, log.lastIndex.index) - log.commitedIndex
    ensures LogsAt(log, log.commitedIndex + 1, n).Ok?
    ensures |LogsAt(log, log.commitedIndex + 1, n).value| == n
    ensures FollowerCommit(log, machine, leaderCommitIndex) == ApplyAndCommit(log, machine, map[], LogsAt(log, log.commitedIndex + 1, n).value, log.commitedIndex + 1)
  {
    LogsAtBounds(log, log.commitedIndex + 1, n);
  }

  /** The commands read past the commit index are supported when every entry there is. */
  lemma RangeSupported(log: LogState, c: int, n: int, cmds: seq<Command>)
    requires Consistent(log)
    requires LogsAt(log, c + 1, n) == Ok(cmds)
    requires forall i :: c < i <= log.lastIndex.index ==> EntryAt(log, i).Ok? && Supported(EntryAt(log, i).value.entry)
    ensures forall k :: 0 <= k < |cmds| ==> Supported(cmds[k])
  {
    LogsAtIsRange(log, c + 1, n);
    forall k | 0 <= k < |cmds| ensures Supported(cmds[k]) {
      assert cmds[(c + 1 + k) - (c + 1)] == EntryAt(log, c + 1 + k).value.entry;
    }
  }

  /** A candidate wins exactly when its votes (its own included) are more
      than half the node count. */
  lemma WinsElectionIsMoreThanHalf(votes: set<NodeId>, nodeCount: int)
    ensures nodeCount >= 0 ==> (WinsElection(votes, nodeCount) <==> 2 * |votes| > nodeCount)
  {
  }

  lemma SubsetNoLarger(x: set<NodeId>, y: set<NodeId>)
    requires x <= y
    ensures |x| <= |y|
  {
    assert y == x + (y - x);
  }

  /** Two winning vote sets drawn from the same cluster share a node, so a
      node that votes once per term lets at most one candidate win it. */
  lemma WinningVotesOverlap(a: set<NodeId>, b: set<NodeId>, cluster: set<NodeId>)
    requires a <= cluster && b <= cluster
    ensures WinsElection(a, |cluster|) && WinsElection(b, |cluster|) ==> a * b != {}
  {
    if WinsElection(a, |cluster|) && WinsElection(b, |cluster|) && a * b == {} {
      WinsElectionIsMoreThanHalf(a, |cluster|);
      WinsElectionIsMoreThanHalf(b, |cluster|);
      SubsetNoLarger(a + b, cluster);
      assert false;
    }
  }

  /** The sender is the first member at that address; messages from an
      address no member has are dropped. */
  lemma {:induction false} FindSenderIsFirstMatch(members: seq<Member>, address: IPEndPointAddress)
    ensures FindSender(members, address).None? <==> forall k :: 0 <= k < |members| ==> members[k].address != address
    ensures FindSender(members, address).Some? ==>
              exists k :: 0 <= k < |members| && members[k] == FindSender(members, address).value && members[k].address == address
                          && forall j :: 0 <= j < k ==> members[j].address != address
    decreases |members|
  {
    if members != [] {
      EqualsIsEndPointEquality(members[0].address, address);
      FindSenderIsFirstMatch(members[1..], address);
      if FindSender(members, address).Some? && members[0].address != address {
        var k :| 0 <= k < |members[1..]| && members[1..][k] == FindSender(members, address).value && members[1..][k].address == address
                 && forall j :: 0 <= j < k ==> members[1..][j].address != address;
        assert members[k + 1] == members[1..][k];
        assert forall j :: 1 <= j < k + 1 ==> members[j] == members[1..][j - 1];
      }
      if forall k :: 0 <= k < |members| ==> members[k].address != address {
        assert forall k :: 0 <= k < |members[1..]| ==> members[1..][k] == members[k + 1];
      }
    }
  }

  // ---------------------------------------------------------------------
  // The node object

  // ---------------------------------------------------------------------
  // Role states, and a step-down started from inside the leader loop

  /** The role part of a node: status, term and vote, whether it holds a
      leader state, and the deadline of the candidate or follower state it
      holds (None: it holds no such state object). */
  datatype Roles = Roles(status: NodeStatus, term: int, votedFor: Option<NodeId>, hasLeaderState: bool,
                         candidateDeadline: Option<int>, followerDeadline: Option<int>)

  /** Whether the node's timers start an election at `now`: a candidate past
      its election deadline, or a follower holding a follower state whose
      leader timeout has passed. */
  predicate StartsElection(s: Roles, now: int) {
    || (s.status == Candidate && s.candidateDeadline.Some? && now > s.candidateDeadline.value)
    || (s.status == Follower && s.followerDeadline.Some? && now > s.followerDeadline.value)
  }

  /** BecomeFollower(term) run to its end: follower of `term` with no vote,
      no leader or candidate state, and a fresh follower state whose leader
      timeout runs from `now`. */
  function StepDown(term: int, now: int): (r: Roles)
    ensures r.status == Follower && r.term == term && r.votedFor == None && !r.hasLeaderState
    ensures r.candidateDeadline == None && r.followerDeadline == Some(now + RaftOptions.LeaderTimeout)
  {
    Roles(Follower, term, None, false, None, Some(now + RaftOptions.LeaderTimeout))
  }

  /** The term a leader ends its tick at: the highest of its own term and
      the newer terms its followers reported (Raft's rule: a term not above
      the current one is ignored). */
  function HighestTerm(newerTerms: seq<(int, Member)>, floor: int): (r: int)
    ensures r >= floor
    ensures forall k :: 0 <= k < |newerTerms| ==> newerTerms[k].0 <= r
    ensures r == floor || exists k :: 0 <= k < |newerTerms| && newerTerms[k].0 == r
    decreases |newerTerms|
  {
    if newerTerms == [] then floor
    else Max(HighestTerm(newerTerms[..|newerTerms| - 1], floor), newerTerms[|newerTerms| - 1].0)
  }

  /** BecomeFollower(term) as it runs when the leader loop calls it about a
      follower's newer term: status and term are set and the vote cleared,
      then it awaits the leader state's Stop, which awaits the leader loop
      task, the very task that is waiting; nothing after that await runs. */
  function StepDownInsideLeaderLoop(s: Roles, term: int): (r: Roles)
    ensures r.status == Follower && r.term == term && r.votedFor == None
    ensures r.hasLeaderState == s.hasLeaderState && r.followerDeadline == s.followerDeadline
  {
    s.(status := Follower, term := term, votedFor := None)
  }

  /** The timer half of one node tick: an Unknown node steps down to its
      term; an election that is due starts for the next term with the node's
      own vote and the drawn deadline; otherwise nothing changes. */
  function TimerPass(s: Roles, selfId: NodeId, now: int, electionTimeout: int): (r: Roles)
    ensures s.status != Unknown && !StartsElection(s, now) ==> r == s
    ensures s.status != Unknown && StartsElection(s, now) ==>
              r.status == Candidate && r.term == s.term + 1 && r.votedFor == Some(selfId)
              && r.candidateDeadline == Some(electionTimeout)
  {
    if s.status == Unknown then StepDown(s.term, now)
    else if StartsElection(s, now) then
      s.(status := Candidate, term := s.term + 1, votedFor := Some(selfId), candidateDeadline := Some(electionTimeout))
    else s
  }

  /** Consecutive timer passes, one per (now, drawn deadline) pair. */
  function TimerPasses(s: Roles, selfId: NodeId, ticks: seq<(int, int)>): Roles
    decreases |ticks|
  {
    if ticks == [] then s else TimerPasses(TimerPass(s, selfId, ticks[0].0, ticks[0].1), selfId, ticks[1..])
  }

  /** As written, a leader that steps down from inside its own loop is left a
      follower of the new term that still holds its leader state (so client
      requests still go to the stalled leader loop) and holds no follower
      state: no number of timer passes ever starts an election or changes it. */
  lemma {:induction false} HungStepDownNeverElects(s: Roles, term: int, selfId: NodeId, ticks: seq<(int, int)>)
    requires s.status == Leader && s.hasLeaderState && s.followerDeadline.None?
    ensures var h := StepDownInsideLeaderLoop(s, term);
            && h.status == Follower && h.term == term && h.hasLeaderState
            && (forall k :: 0 <= k < |ticks| ==> !StartsElection(h, ticks[k].0))
            && TimerPasses(h, selfId, ticks) == h
    decreases |ticks|
  {
    var h := StepDownInsideLeaderLoop(s, term);
    if ticks != [] {
      assert TimerPass(h, selfId, ticks[0].0, ticks[0].1) == h;
      HungStepDownNeverElects(s, term, selfId, ticks[1..]);
      assert forall k :: 1 <= k < |ticks| ==> ticks[k] == ticks[1..][k - 1];
    }
  }

  /** A complete step-down drops the leader state (client requests are
      refused) and, once the leader timeout has passed with no word from a
      leader, the next timer pass starts an election for the following term. */
  lemma StepDownElectsAfterTimeout(term: int, now: int, selfId: NodeId, later: int, electionTimeout: int)
    ensures !StepDown(term, now).hasLeaderState
    ensures later > now + RaftOptions.LeaderTimeout <==> StartsElection(StepDown(term, now), later)
    ensures later > now + RaftOptions.LeaderTimeout ==>
              TimerPass(StepDown(term, now), selfId, later, electionTimeout).status == Candidate
              && TimerPass(StepDown(term, now), selfId, later, electionTimeout).term == term + 1
  {
  }

  // ---------------------------------------------------------------------
  // Votes cast over a run of events

  /** The events that touch a node's term and vote: starting an election,
      winning one, answering a vote request (with the log's last index at
      that moment), and BecomeFollower to a term. */
  datatype VoteEvent =
    | ElectionStarted
    | ElectionWon
    | VoteRequested(r: RequestVoteRequest, from: NodeId, lastLogIndex: int)
    | SteppedDownTo(term: int)

  datatype Ballot = Ballot(term: int, votedFor: Option<NodeId>)

  /** A vote cast: the term and the candidate voted for. */
  datatype Cast = Cast(term: int, candidate: NodeId)

  /** One event as RaftNode handles it, with the vote it casts (if any).
      As written (`keepVote` false) winning an election and stepping down
      clear the vote even when the term stays; with `keepVote` the vote is
      kept while the term is unchanged. */
  function BallotStep(b: Ballot, selfId: NodeId, e: VoteEvent, keepVote: bool): (Ballot, Option<Cast>) {
    match e
    case ElectionStarted => (Ballot(b.term + 1, Some(selfId)), Some(Cast(b.term + 1, selfId)))
    case ElectionWon => (if keepVote then b else b.(votedFor := None), None)
    case VoteRequested(r, from, lastLogIndex) =>
      var (t, v) := AdoptTerm(b.term, b.votedFor, r.term);
      var (resp, v2) := VoteAnswer(t, v, lastLogIndex, r, from);
      (Ballot(t, v2), if resp.voteGranted then Some(Cast(t, from)) else None)
    case SteppedDownTo(term) => (if keepVote && term == b.term then b else Ballot(term, None), None)
  }

  /** The votes cast over a run of events, in order. */
  function VotesCast(b: Ballot, selfId: NodeId, events: seq<VoteEvent>, keepVote: bool): seq<Cast>
    decreases |events|
  {
    if events == [] then []
    else
      var (b1, c) := BallotStep(b, selfId, events[0], keepVote);
      (if c.Some? then [c.value] else []) + VotesCast(b1, selfId, events[1..], keepVote)
  }

  /** Every BecomeFollower in the run is to a term not below the node's
      current one. This is a condition on the run, not something the class
      establishes: the handlers step down only to a higher term or to the
      node's own, and so does LeaderTick, which skips reported terms not
      above the current one. */
  predicate NeverLowersTerm(b: Ballot, selfId: NodeId, events: seq<VoteEvent>, keepVote: bool)
    decreases |events|
  {
    events != [] ==>
      && (events[0].SteppedDownTo? ==> events[0].term >= b.term)
      && NeverLowersTerm(BallotStep(b, selfId, events[0], keepVote).0, selfId, events[1..], keepVote)
  }

  predicate OnePerTerm(casts: seq<Cast>) {
    forall i, j :: 0 <= i < |casts| && 0 <= j < |casts| && casts[i].term == casts[j].term ==> casts[i].candidate == casts[j].candidate
  }

  /** The votes cast so far agree with the ballot: none in a later term, and
      one in the current term only for the candidate the ballot records. */
  predicate Agrees(b: Ballot, casts: seq<Cast>) {
    forall k :: 0 <= k < |casts| ==> casts[k].term <= b.term && (casts[k].term == b.term ==> b.votedFor == Some(casts[k].candidate))
  }

  lemma BallotStepKeeps(b: Ballot, selfId: NodeId, e: VoteEvent, prior: seq<Cast>)
    requires OnePerTerm(prior) && Agrees(b, prior)
    requires e.SteppedDownTo? ==> e.term >= b.term
    ensures var (b1, c) := BallotStep(b, selfId, e, true);
            var next := prior + (if c.Some? then [c.value] else []);
            OnePerTerm(next) && Agrees(b1, next)
  {
    var (b1, c) := BallotStep(b, selfId, e, true);
    if c.Some? {
      var next := prior + [c.value];
      assert c.value.term == b1.term && b1.votedFor == Some(c.value.candidate);
      forall k | 0 <= k < |prior| && prior[k].term == c.value.term
        ensures prior[k].candidate == c.value.candidate
      {
      }
      assert forall k :: 0 <= k < |prior| ==> next[k] == prior[k];
    }
  }

  /** With the vote kept while the term is unchanged, every run of events
      casts at most one vote per term. */
  lemma {:induction false} KeptVoteOnePerTerm(b: Ballot, selfId: NodeId, events: seq<VoteEvent>, prior: seq<Cast>)
    requires OnePerTerm(prior) && Agrees(b, prior)
    requires NeverLowersTerm(b, selfId, events, true)
    ensures OnePerTerm(prior + VotesCast(b, selfId, events, true))
    decreases |events|
  {
    if events == [] {
      assert prior + [] == prior;
    } else {
      var (b1, c) := BallotStep(b, selfId, events[0], true);
      var first := if c.Some? then [c.value] else [];
      BallotStepKeeps(b, selfId, events[0], prior);
      KeptVoteOnePerTerm(b1, selfId, events[1..], prior + first);
      assert prior + VotesCast(b, selfId, events, true) == (prior + first) + VotesCast(b1, selfId, events[1..], true);
    }
  }

  /** As written, a node that wins term 1 clears its own vote and then grants
      a second candidate's request in that same term; a candidate that takes
      an AppendEntries of its own term does the same: two votes in one term. */
  lemma ClearedVoteGrantsTwice()
    ensures var r := RequestVoteRequest(1, "b", 0, 0);
            && VotesCast(Ballot(0, None), "a", [ElectionStarted, ElectionWon, VoteRequested(r, "b", 0)], false)
               == [Cast(1, "a"), Cast(1, "b")]
            && VotesCast(Ballot(0, None), "a", [ElectionStarted, SteppedDownTo(1), VoteRequested(r, "b", 0)], false)
               == [Cast(1, "a"), Cast(1, "b")]
            && !OnePerTerm([Cast(1, "a"), Cast(1, "b")])
  {
    var r := RequestVoteRequest(1, "b", 0, 0);
    var won := [ElectionStarted, ElectionWon, VoteRequested(r, "b", 0)];
    assert won[1..] == [ElectionWon, VoteRequested(r, "b", 0)];
    assert won[1..][1..] == [VoteRequested(r, "b", 0)];
    var followed := [ElectionStarted, SteppedDownTo(1), VoteRequested(r, "b", 0)];
    assert followed[1..] == [SteppedDownTo(1), VoteRequested(r, "b", 0)];
    assert followed[1..][1..] == [VoteRequested(r, "b", 0)];
    assert BallotStep(Ballot(0, None), "a", ElectionStarted, false) == (Ballot(1, Some("a")), Some(Cast(1, "a")));
    assert BallotStep(Ballot(1, Some("a")), "a", SteppedDownTo(1), false) == (Ballot(1, None), None);
    assert BallotStep(Ballot(1, None), "a", VoteRequested(r, "b", 0), false) == (Ballot(1, Some("b")), Some(Cast(1, "b")));
    assert VotesCast(Ballot(1, Some("b")), "a", [], false) == [];
    assert VotesCast(Ballot(1, None), "a", [VoteRequested(r, "b", 0)], false) == [Cast(1, "b")];
    assert VotesCast(Ballot(1, Some("a")), "a", followed[1..], false) == [Cast(1, "b")];
    var casts := [Cast(1, "a"), Cast(1, "b")];
    assert casts[0].term == casts[1].term && casts[0].candidate != casts[1].candidate;
  }

  class RaftNode {
    const selfId: NodeId
    const nodeCount: int
    const log: InMemoryLogRepository
    const machine: CounterStateMachine
    var status: NodeStatus
    var currentTerm: int
    var votedFor: Option<NodeId>
    var leaderState: RaftLeaderState?
    var candidateState: RaftCandidateState?
    var followerState: RaftFollowerState?
    /** Arrived messages with their sender address, oldest first. */
    var messages: seq<(RaftMessage, IPEndPointAddress)>
    var outbox: seq<Sent>

    /** Each role has its state object, only a leader has a leader state, and
        the leader state works on this node's log and state machine. */
    ghost predicate Valid()
      reads this
    {
      && (status == Candidate ==> candidateState != null)
      && (status == Follower ==> followerState != null)
      && (status == Leader <==> leaderState != null)
      && (leaderState != null ==> leaderState.log == log && leaderState.machine == machine && leaderState.term == currentTerm
                                  && leaderState.selfId == selfId && leaderState.nodeCount == nodeCount)
    }

    /** The follower state of a node that has just stepped down at `term`. */
    ghost predicate SteppedDown(term: int, now: int)
      reads this, followerState
    {
      && status == Follower && currentTerm == term && votedFor == None
      && leaderState == null && candidateState == null && followerState != null
      && followerState.term == term && followerState.leader == None
      && followerState.leaderTimeout == now + RaftOptions.LeaderTimeout
    }

    /** The candidate state of a node that has just started an election. */
    ghost predicate JustElecting(term: int, electionTimeout: int)
      reads this, candidateState
    {
      && status == Candidate && currentTerm == term && votedFor == Some(selfId)
      && candidateState != null && candidateState.term == term
      && candidateState.electionTimeout == electionTimeout && candidateState.recivedVotesFrom == {selfId}
    }

    constructor (selfId: NodeId, nodeCount: int, log: InMemoryLogRepository, machine: CounterStateMachine)
      ensures this.selfId == selfId && this.nodeCount == nodeCount && this.log == log && this.machine == machine
      ensures status == Unknown && currentTerm == 0 && votedFor == None
      ensures leaderState == null && candidateState == null && followerState == null
      ensures messages == [] && outbox == []
      ensures Valid()
    {
      this.selfId := selfId;
      this.nodeCount := nodeCount;
      this.log := log;
      this.machine := machine;
      status := Unknown;
      currentTerm := 0;
      votedFor := None;
      leaderState := null;
      candidateState := null;
      followerState := null;
      messages := [];
      outbox := [];
    }

    method UpdateTerm(term: int)
      modifies this`currentTerm, this`votedFor
      ensures currentTerm == term && votedFor == None
    {
      currentTerm := term;
      votedFor := None;
    }

    /** Steps down at `term`: the leader loop is stopped and dropped, the
        candidate state dropped, and a fresh follower state (no leader yet) created. */
    method BecomeFollower(term: int, now: int)
      modifies this`status, this`currentTerm, this`votedFor, this`leaderState, this`candidateState, this`followerState
      ensures SteppedDown(term, now) && fresh(followerState)
      ensures Valid()
    {
      status := Follower;
      UpdateTerm(term);
      if leaderState != null {
        leaderState := null;
      }
      candidateState := null;
      followerState := new RaftFollowerState(term, None, now);
    }

    /** Takes the lead for the current term with a fresh leader state. */
    method BecomeLeader()
      requires Valid()
      modifies this`status, this`followerState, this`leaderState
      ensures status == Leader && followerState == null
      ensures leaderState != null && fresh(leaderState)
      ensures leaderState.term == currentTerm && leaderState.replicationStateByNode == map[]
      ensures leaderState.pendingCommandResults == map[] && leaderState.outbox == []
      ensures Valid()
    {
      status := Leader;
      followerState := null;
      leaderState := new RaftLeaderState(currentTerm, nodeCount, selfId, log, machine);
    }

    /** Starts an election for the next term: votes for itself and asks every
        other member for its vote with the log's last index and term.  The
        deadline is ElectionTimeoutMin plus a random part of the spread. */
    method StartElection(members: seq<Member>, now: int, electionTimeout: int)
      requires Valid() && status != Leader
      requires now + RaftOptions.ElectionTimeoutMin <= electionTimeout < now + RaftOptions.ElectionTimeoutMax
      modifies this`status, this`currentTerm, this`votedFor, this`candidateState, this`outbox
      ensures JustElecting(old(currentTerm) + 1, electionTimeout) && fresh(candidateState)
      ensures outbox == old(outbox) + VoteRequests(members, RequestVoteRequest(currentTerm, selfId, log.lastIndex.index, log.lastIndex.term))
      ensures Valid()
    {
      status := Candidate;
      UpdateTerm(currentTerm + 1);
      candidateState := new RaftCandidateState(currentTerm, electionTimeout);
      votedFor := Some(selfId);
      candidateState.AddVote(selfId);
      var lastIndex := log.lastIndex;
      var r := RequestVoteRequest(currentTerm, selfId, lastIndex.index, lastIndex.term);
      SendVoteRequests(members, r);
    }

    /** StartElection's loop: one RequestVote to every member, in order. */
    method SendVoteRequests(members: seq<Member>, r: RequestVoteRequest)
      modifies this`outbox
      ensures outbox == old(outbox) + VoteRequests(members, r)
    {
      var i := 0;
      while i < |members|
        invariant 0 <= i <= |members|
        invariant outbox == old(outbox) + VoteRequests(members[..i], r)
      {
        assert members[..i + 1] == members[..i] + [members[i]];
        VoteRequestsAppend(members[..i], members[i], r);
        outbox := outbox + [Sent(RequestVote(r), members[i].address)];
        i := i + 1;
      }
      assert members[..i] == members;
    }

    /** A vote request: adopt a higher term (stepping down), then answer. */
    method OnRequestVoteRequest(r: RequestVoteRequest, from: Member, now: int)
      requires Valid()
      modifies this`status, this`currentTerm, this`votedFor, this`leaderState, this`candidateState, this`followerState, this`outbox
      ensures var (t, v) := AdoptTerm(old(currentTerm), old(votedFor), r.term);
              var (resp, v2) := VoteAnswer(t, v, log.lastIndex.index, r, from.id);
              currentTerm == t && votedFor == v2 && outbox == old(outbox) + [Sent(RequestVoteReply(resp), from.address)]
      ensures r.term > old(currentTerm) ==> status == Follower && leaderState == null && candidateState == null && fresh(followerState)
      ensures r.term <= old(currentTerm) ==>
                && status == old(status) && leaderState == old(leaderState)
                && candidateState == old(candidateState) && followerState == old(followerState)
      ensures Valid()
    {
      if r.term > currentTerm {
        BecomeFollower(r.term, now);
      }
      var resp := RequestVoteResponse(false, 0);
      if r.term < currentTerm {
        resp := resp.(term := currentTerm);
      } else {
        resp := resp.(term := r.term);
        if votedFor == None || votedFor == Some(from.id) {
          if log.lastIndex.index <= r.lastLogIndex {
            resp := resp.(voteGranted := true);
            votedFor := Some(from.id);
          }
        }
      }
      outbox := outbox + [Sent(RequestVoteReply(resp), from.address)];
    }

    /** A vote reply: a higher term makes the node step down; a vote granted
        in the current term while still a candidate is counted, and a
        majority makes the node leader (clearing its own vote). */
    method OnRequestVoteResponse(r: RequestVoteResponse, from: Member, now: int)
      requires Valid()
      modifies this`status, this`currentTerm, this`votedFor, this`leaderState, this`candidateState, this`followerState, candidateState
      ensures r.term > old(currentTerm) ==> SteppedDown(r.term, now) && fresh(followerState)
      ensures r.term <= old(currentTerm) && !(old(status) == Candidate && r.term == old(currentTerm) && r.voteGranted) ==>
                && status == old(status) && currentTerm == old(currentTerm) && votedFor == old(votedFor)
                && leaderState == old(leaderState) && candidateState == old(candidateState) && followerState == old(followerState)
                && (candidateState != null ==> candidateState.recivedVotesFrom == old(candidateState.recivedVotesFrom))
      ensures r.term <= old(currentTerm) && old(status) == Candidate && r.term == old(currentTerm) && r.voteGranted ==>
                && currentTerm == old(currentTerm) && candidateState == old(candidateState)
                && candidateState.recivedVotesFrom == old(candidateState.recivedVotesFrom) + {from.id}
                && (WinsElection(candidateState.recivedVotesFrom, nodeCount) ==>
                      status == Leader && votedFor == None && followerState == null && fresh(leaderState) && leaderState.term == currentTerm)
                && (!WinsElection(candidateState.recivedVotesFrom, nodeCount) ==>
                      status == Candidate && votedFor == old(votedFor) && leaderState == old(leaderState) && followerState == old(followerState))
      ensures Valid()
    {
      if r.term > currentTerm {
        BecomeFollower(r.term, now);
        return;
      }
      if status != Candidate {
        return;
      }
      if r.term == currentTerm {
        if r.voteGranted {
          candidateState.AddVote(from.id);
          if |candidateState.recivedVotesFrom| > HalfTowardZero(nodeCount) {
            votedFor := None;
            BecomeLeader();
          }
        }
      }
    }

    /** The consistency check, the append and the commit, for an
        AppendEntries from a leader of the node's term. */
    method ReplicateFromLeader(r: AppendEntriesRequest, from: Member) returns (o: Outcome)
      modifies log, machine, this`outbox
      ensures var step := AcceptAppend(old(log.State()), old(machine.State()), r, currentTerm);
              log.State() == step.log && machine.State() == step.machine && o == step.outcome
              && outbox == old(outbox) + Replies(step.reply, from.address)
    {
      ghost var before := log.State();
      var accept := MatchesPrev(r.prevLogIndex, r.prevLogTerm);
      if accept.Err? {
        return Failed(accept.error);
      }
      if !accept.value {
        outbox := outbox + [Sent(AppendEntriesReply(AppendEntriesResponse(false, currentTerm)), from.address)];
        return Done;
      }
      if r.entries.Some? && |r.entries.value| > 0 {
        o := log.AppendFromIndex(r.prevLogIndex + 1, r.term, r.entries.value);
        if o.Failed? {
          return;
        }
      }
      assert FollowerAppend(before, r) == Ok(log.State());
      outbox := outbox + [Sent(AppendEntriesReply(AppendEntriesResponse(true, currentTerm)), from.address)];
      o := ApplyUpTo(r.leaderCommitIndex);
    }

    /** The log consistency check of an AppendEntries, read off the log. */
    method MatchesPrev(prevLogIndex: int, prevLogTerm: int) returns (m: Result<bool>)
      ensures m == PrevMatches(log.State(), prevLogIndex, prevLogTerm)
    {
      if log.lastIndex.index < prevLogIndex {
        return Ok(false);
      } else if prevLogIndex == 0 {
        return Ok(prevLogTerm == 0);
      } else if prevLogIndex > 0 {
        var t := log.GetTermAtIndex(prevLogIndex);
        if t.Err? {
          return Err(t.error);
        }
        return Ok(t.value == prevLogTerm);
      }
      m := Ok(true);
    }

    /** Applies and commits CommitedIndex+1 .. min(leaderCommitIndex, LastIndex) in order. */
    method ApplyUpTo(leaderCommitIndex: int) returns (o: Outcome)
      modifies log, machine
      ensures var run := FollowerCommit(old(log.State()), old(machine.State()), leaderCommitIndex);
              log.State() == run.log && machine.State() == run.machine && o == run.outcome
    {
      var commitedIndex := log.commitedIndex;
      if leaderCommitIndex <= commitedIndex {
        return Done;
      }
      var indexStart := commitedIndex + 1;
      var newCommitIndex := Min(leaderCommitIndex, log.lastIndex.index);
      var logsCount := newCommitIndex - commitedIndex;
      var logs := log.GetLogsAtIndex(indexStart, logsCount);
      if logs.Err? {
        return Failed(logs.error);
      }
      o := ApplyRun(logs.value, indexStart, logsCount);
    }

    /** ApplyUpTo's loop: the commands at from, from+1, ... applied and committed in turn. */
    method ApplyRun(cmds: seq<Command>, from: int, count: int) returns (o: Outcome)
      requires |cmds| == Max(count, 0)
      modifies log, machine
      ensures ApplyAndCommit(old(log.State()), old(machine.State()), map[], cmds, from) == CommitRun(log.State(), machine.State(), map[], o)
    {
      ghost var target := ApplyAndCommit(log.State(), machine.State(), map[], cmds, from);
      assert cmds[0..] == cmds;
      var i := 0;
      while i < count
        invariant 0 <= i <= |cmds| && (i < count <==> i < |cmds|)
        invariant ApplyAndCommit(log.State(), machine.State(), map[], cmds[i..], from + i) == target
      {
        o := ApplyAt(target, cmds, i, from);
        if o.Failed? {
          return;
        }
        i := i + 1;
      }
      assert cmds[i..] == [];
      o := Done;
    }

    /** One turn of ApplyUpTo's loop: apply cmds[i] at from+i, then commit it. */
    method ApplyAt(ghost target: CommitRun, cmds: seq<Command>, i: int, from: int) returns (o: Outcome)
      requires 0 <= i < |cmds|
      requires ApplyAndCommit(log.State(), machine.State(), map[], cmds[i..], from + i) == target
      modifies log, machine
      ensures o.Failed? ==> target == CommitRun(log.State(), machine.State(), map[], o)
      ensures o.Done? ==> ApplyAndCommit(log.State(), machine.State(), map[], cmds[i + 1..], from + (i + 1)) == target
    {
      assert cmds[i..][0] == cmds[i] && cmds[i..][1..] == cmds[i + 1..];
      ApplyAndCommitFirst(log.State(), machine.State(), map[], cmds[i..], from + i);
      var result := machine.Apply(cmds[i], from + i);
      if result.Err? {
        return Failed(result.error);
      }
      assert Complete(map[], from + i, result.value) == map[];
      o := log.Commit(from + i);
    }

    /** An AppendEntries: adopt a higher term, refuse an older one, otherwise
        become (or stay) follower of the sender and take its entries. */
    method OnAppendEntriesRequest(r: AppendEntriesRequest, from: Member, now: int) returns (o: Outcome)
      requires Valid()
      modifies this`status, this`currentTerm, this`votedFor, this`leaderState, this`candidateState, this`followerState, this`outbox
      modifies followerState, log, machine
      ensures r.term < old(currentTerm) ==>
                && o == Done && outbox == old(outbox) + [Sent(AppendEntriesReply(AppendEntriesResponse(false, old(currentTerm))), from.address)]
                && status == old(status) && currentTerm == old(currentTerm) && votedFor == old(votedFor)
                && leaderState == old(leaderState) && candidateState == old(candidateState) && followerState == old(followerState)
                && log.State() == old(log.State()) && machine.State() == old(machine.State())
      ensures r.term >= old(currentTerm) ==>
                && status == Follower && currentTerm == r.term && leaderState == null
                && votedFor == (if r.term > old(currentTerm) || old(status) != Follower then None else old(votedFor))
                && followerState != null && followerState.leader == Some(from.id)
                && followerState.leaderTimeout == now + RaftOptions.LeaderTimeout
                && var step := AcceptAppend(old(log.State()), old(machine.State()), r, r.term);
                   log.State() == step.log && machine.State() == step.machine && o == step.outcome
                   && outbox == old(outbox) + Replies(step.reply, from.address)
      ensures Valid()
    {
      if r.term > currentTerm {
        BecomeFollower(r.term, now);
      }
      if r.term < currentTerm {
        outbox := outbox + [Sent(AppendEntriesReply(AppendEntriesResponse(false, currentTerm)), from.address)];
        return Done;
      }
      if status != Follower {
        BecomeFollower(r.term, now);
      }
      if followerState != null {
        followerState.OnLeaderMessage(Some(from.id), now);
      }
      o := ReplicateFromLeader(r, from);
    }

    /** Queues a Raft message with its sender's address; anything else is ignored. */
    method OnMessageArrived(message: Option<RaftMessage>, address: IPEndPointAddress)
      modifies this`messages
      ensures messages == if message.Some? then old(messages) + [(message.value, address)] else old(messages)
    {
      if message.Some? {
        messages := messages + [(message.value, address)];
      }
    }

    /** Whether the message type is handled by the node's dispatcher. */
    static predicate Dispatched(m: RaftMessage) {
      m.RequestVote? || m.RequestVoteReply? || m.AppendEntries?
    }

    /** Takes the oldest queued message, looks up its sender among the other
        members and dispatches it; `handled` is false when there was nothing
        to do (no message, unknown sender, or a type the node ignores). */
    method ProcessNextMessage(members: seq<Member>, now: int) returns (handled: bool, o: Outcome)
      requires Valid()
      modifies this, followerState, candidateState, log, machine
      ensures messages == if old(messages) == [] then [] else old(messages)[1..]
      ensures handled <==> old(messages) != [] && FindSender(members, old(messages)[0].1).Some? && Dispatched(old(messages)[0].0)
      ensures !handled ==>
                && status == old(status) && currentTerm == old(currentTerm) && votedFor == old(votedFor)
                && leaderState == old(leaderState) && candidateState == old(candidateState)
                && followerState == old(followerState) && outbox == old(outbox)
                && log.State() == old(log.State()) && machine.State() == old(machine.State()) && o == Done
      ensures currentTerm >= old(currentTerm)
      ensures Valid()
    {
      o := Done;
      handled := false;
      if messages == [] {
        return;
      }
      var (message, address) := messages[0];
      messages := messages[1..];
      var sender := FindSender(members, address);
      if sender.None? {
        return;
      }
      var node := sender.value;
      match message {
        case RequestVote(rv) =>
          OnRequestVoteRequest(rv, node, now);
          handled := true;
        case RequestVoteReply(rvr) =>
          OnRequestVoteResponse(rvr, node, now);
          handled := true;
        case AppendEntries(ae) =>
          o := OnAppendEntriesRequest(ae, node, now);
          handled := true;
        case _ =>
      }
    }

    /** The node's role part as a value. */
    ghost function RoleState(): Roles
      reads this, candidateState, followerState
    {
      Roles(status, currentTerm, votedFor, leaderState != null,
            if candidateState != null then Some(candidateState.electionTimeout) else None,
            if followerState != null then Some(followerState.leaderTimeout) else None)
    }

    /** Whether the node's election timer has run out at `now`. */
    ghost predicate ElectionDue(now: int)
      reads this, candidateState, followerState
    {
      StartsElection(RoleState(), now)
    }

    /** The timer half of a tick: an Unknown node becomes follower of its
        term; a candidate past its deadline, or a follower that has not heard
        from its leader in time, starts a new election. */
    method CheckTimers(members: seq<Member>, now: int, electionTimeout: int) returns (idle: bool)
      requires Valid()
      requires now + RaftOptions.ElectionTimeoutMin <= electionTimeout < now + RaftOptions.ElectionTimeoutMax
      modifies this`status, this`currentTerm, this`votedFor, this`leaderState, this`candidateState, this`followerState, this`outbox
      ensures old(status) == Unknown ==> SteppedDown(old(currentTerm), now) && outbox == old(outbox) && !idle
      ensures old(status) != Unknown && old(ElectionDue(now)) ==>
                && JustElecting(old(currentTerm) + 1, electionTimeout) && fresh(candidateState) && !idle
                && outbox == old(outbox) + VoteRequests(members, RequestVoteRequest(currentTerm, selfId, log.lastIndex.index, log.lastIndex.term))
                && leaderState == old(leaderState) && followerState == old(followerState)
      ensures old(status) != Unknown && !old(ElectionDue(now)) ==>
                && idle && status == old(status) && currentTerm == old(currentTerm) && votedFor == old(votedFor)
                && leaderState == old(leaderState) && candidateState == old(candidateState)
                && followerState == old(followerState) && outbox == old(outbox)
      ensures RoleState() == TimerPass(old(RoleState()), selfId, now, electionTimeout)
      ensures currentTerm >= old(currentTerm)
      ensures Valid()
    {
      idle := true;
      if status == Unknown {
        BecomeFollower(currentTerm, now);
        idle := false;
      }
      if status == Candidate {
        if now > candidateState.electionTimeout {
          StartElection(members, now, electionTimeout);
          idle := false;
        }
      }
      if status == Follower && followerState != null {
        if now > followerState.leaderTimeout {
          StartElection(members, now, electionTimeout);
          idle := false;
        }
      }
    }

    /** One tick of the node's loop: at most one message, then the timers. */
    method OnLoopRun(members: seq<Member>, now: int, electionTimeout: int) returns (idle: bool, o: Outcome)
      requires Valid()
      requires now + RaftOptions.ElectionTimeoutMin <= electionTimeout < now + RaftOptions.ElectionTimeoutMax
      modifies this, followerState, candidateState, log, machine
      ensures messages == if old(messages) == [] then [] else old(messages)[1..]
      ensures currentTerm >= old(currentTerm)
      ensures Valid()
    {
      var handled;
      handled, o := ProcessNextMessage(members, now);
      var timersIdle := CheckTimers(members, now, electionTimeout);
      idle := !handled && timersIdle;
    }

    /** One tick of the leader loop (the leader state's OnLoopRun), then the
        step down to the highest newer term a follower reported, if any. The
        tick's replication, sends and commit are those of ReplicateAll and
        CommitPhase, and the term never decreases. */
    method LeaderTick(members: seq<Member>, now: int, replies: NodeId -> AppendReply) returns (o: Outcome, newerTerms: seq<(int, Member)>)
      requires Valid() && status == Leader
      modifies this`status, this`currentTerm, this`votedFor, this`leaderState, this`candidateState, this`followerState
      modifies leaderState, log, machine
      ensures var ls := old(leaderState);
              var x := ReplicateAll(old(leaderState.replicationStateByNode), members, old(log.State()), old(log.lastIndex), now, replies, old(currentTerm), selfId);
              && newerTerms == x.newerTerms
              && ls.replicationStateByNode == x.states && ls.outbox == old(leaderState.outbox) + x.sent
              && (x.error.Some? ==> o == Failed(x.error.value) && log.State() == old(log.State())
                                    && machine.State() == old(machine.State()) && ls.pendingCommandResults == old(leaderState.pendingCommandResults))
              && (x.error.None? ==> CommitPhase(old(log.State()), old(machine.State()), old(leaderState.pendingCommandResults), Max(MajorityMatch(x.states, nodeCount), old(log.commitedIndex)))
                                    == CommitRun(log.State(), machine.State(), ls.pendingCommandResults, o))
      ensures forall k :: 0 <= k < |newerTerms| ==> newerTerms[k].0 > old(currentTerm)
      ensures currentTerm == HighestTerm(newerTerms, old(currentTerm)) && currentTerm >= old(currentTerm)
      ensures newerTerms == [] ==> status == Leader && leaderState == old(leaderState) && votedFor == old(votedFor)
      ensures newerTerms != [] ==> currentTerm > old(currentTerm) && SteppedDown(currentTerm, now)
      ensures newerTerms != [] ==> RoleState() == StepDown(currentTerm, now)
      ensures Valid()
    {
      o, newerTerms := leaderState.OnLoopRun(members, now, replies);
      ReportedTermsAreNewer(old(leaderState.replicationStateByNode), members, old(log.State()), old(log.lastIndex), now, replies, currentTerm, selfId);
      StepDownFor(newerTerms, now);
    }

    /** LeaderTick's step down: a reported term above the current one makes
        the node a follower of that term; one not above it is ignored. The
        node ends at the highest of its term and the reported ones. */
    method StepDownFor(newerTerms: seq<(int, Member)>, now: int)
      requires Valid()
      modifies this`status, this`currentTerm, this`votedFor, this`leaderState, this`candidateState, this`followerState
      ensures currentTerm == HighestTerm(newerTerms, old(currentTerm))
      ensures currentTerm == old(currentTerm) ==>
                && status == old(status) && votedFor == old(votedFor) && leaderState == old(leaderState)
                && candidateState == old(candidateState) && followerState == old(followerState)
      ensures currentTerm > old(currentTerm) ==> SteppedDown(currentTerm, now)
      ensures Valid()
    {
      var i := 0;
      while i < |newerTerms|
        invariant 0 <= i <= |newerTerms|
        invariant currentTerm == HighestTerm(newerTerms[..i], old(currentTerm))
        invariant currentTerm == old(currentTerm) ==>
                    && status == old(status) && votedFor == old(votedFor) && leaderState == old(leaderState)
                    && candidateState == old(candidateState) && followerState == old(followerState)
        invariant currentTerm > old(currentTerm) ==> SteppedDown(currentTerm, now)
        invariant Valid()
      {
        assert newerTerms[..i + 1][..i] == newerTerms[..i];
        if newerTerms[i].0 > currentTerm {
          BecomeFollower(newerTerms[i].0, now);
        }
        i := i + 1;
      }
      assert newerTerms[..i] == newerTerms;
    }

    /** A client request is accepted only by the leader: it is appended under
        the leader's term and a waiting result is registered for its index
        (the wait for that result is not modelled); elsewhere it fails. */
    method OnClientRequest(command: Command) returns (r: Result<int>)
      requires Valid()
      modifies log, leaderState
      ensures old(leaderState) == null ==> r == Err(Cluster) && log.State() == old(log.State())
      ensures old(leaderState) != null ==>
                && r.Ok? && (log.State(), r.value) == AppendOne(old(log.State()), leaderState.term, command)
                && leaderState.pendingCommandResults ==
                     if r.value in old(leaderState.pendingCommandResults) then old(leaderState.pendingCommandResults)
                     else old(leaderState.pendingCommandResults)[r.value := Waiting]
      ensures Valid()
    {
      var leader := leaderState;
      if leader == null {
        return Err(Cluster);
      }
      var index := leader.OnClientRequest(command);
      r := Ok(index);
    }
  }

  lemma VoteRequestsAppend(members: seq<Member>, m: Member, r: RequestVoteRequest)
    ensures VoteRequests(members + [m], r) == VoteRequests(members, r) + [Sent(RequestVote(r), m.address)]
  {
  }
}
