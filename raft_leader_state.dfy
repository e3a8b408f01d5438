/** The leader's replication engine (RaftLeaderState): per-follower
    NextIndex/MatchIndex bookkeeping, the AppendEntries request built for
    each follower, back-off on a mismatch, the majority-replicated index and
    the in-order apply/commit of newly committed entries.

    One call of `OnLoopRun` is one tick.  The transport's answers are a
    parameter: `replies(id)` is what the follower with that id answered (or
    the timeout), together with the clock reading when the answer arrived. */
module RaftLeader {
  import opened Common
  import opened RaftLog
  import opened RaftMessages
  import opened CounterService
  import RaftOptions

  datatype FollowerReplicationState = FollowerReplicationState(
    nextIndex: int,
    matchIndex: int,
    /** When the last AppendEntries to this follower was answered or timed out. */
    lastAppendRequest: Option<int>)

  /** The outcome of one AppendEntries round trip, stamped with the time it was noticed. */
  datatype AppendReply = Responded(response: AppendEntriesResponse, at: int) | TimedOut(at: int)

  /** A client's pending result for a log index. */
  datatype Pending = Waiting | Completed(result: int)

  type States = map<NodeId, FollowerReplicationState>

  // ---------------------------------------------------------------------
  // One follower

  /** The state a follower gets when first seen. */
  function NewReplicationState(lastIndex: LogIndex): FollowerReplicationState {
    FollowerReplicationState(lastIndex.index + 1, 0, None)
  }

  function EnsureState(states: States, id: NodeId, lastIndex: LogIndex): (r: States)
    ensures id in r && r.Keys == states.Keys + {id}
    ensures id in states ==> r == states
    ensures id !in states ==> r[id] == NewReplicationState(lastIndex)
    ensures forall k :: k in states ==> r[k] == states[k]
  {
    if id in states then states else states[id := NewReplicationState(lastIndex)]
  }

  /** The send decision of one tick: there are entries past NextIndex, the
      follower was never contacted, or the ping interval has elapsed. */
  predicate ShouldContact(f: FollowerReplicationState, lastIndex: int, now: int) {
    || lastIndex >= f.nextIndex
    || f.lastAppendRequest.None?
    || now >= f.lastAppendRequest.value + RaftOptions.LeaderPingInterval
  }

  /** The AppendEntries request for a follower, or the exception reading the log raised. */
  function BuildRequest(log: LogState, lastIndex: LogIndex, f: FollowerReplicationState, skipEntries: bool, term: int, leaderId: NodeId): Result<AppendEntriesRequest> {
    var prev := f.nextIndex - 1;
    var prevTerm :- if prev == 0 then Ok(0) else TermAt(log, prev);
    if !skipEntries && lastIndex.index > prev then
      var logs :- LogsAt(log, prev + 1, Max(lastIndex.index - prev, 1));
      Ok(AppendEntriesRequest(term, leaderId, log.commitedIndex, prev, prevTerm, Some(logs)))
    else
      Ok(AppendEntriesRequest(term, leaderId, log.commitedIndex, prev, prevTerm, None))
  }

  /** The follower's state after the reply, and the newer term it revealed, if any. */
  function AfterReply(f: FollowerReplicationState, request: AppendEntriesRequest, reply: AppendReply, term: int): (FollowerReplicationState, Option<int>) {
    match reply
    case TimedOut(at) => (f.(lastAppendRequest := Some(at)), None)
    case Responded(response, at) =>
      var stamped := f.(lastAppendRequest := Some(at));
      if response.success then
        var count := EntryCount(request);
        (stamped.(nextIndex := f.nextIndex + count, matchIndex := request.prevLogIndex + count), None)
      else if response.term > term then (stamped, Some(response.term))
      else (stamped.(nextIndex := f.nextIndex - 1), None)
  }

  // ---------------------------------------------------------------------
  // One tick over all followers

  datatype Replication = Replication(
    states: States,
    sent: seq<Sent>,
    /** The newer terms reported, with the follower that reported each. */
    newerTerms: seq<(int, Member)>,
    /** The first exception raised while building a request. */
    error: Option<ErrorKind>)

  /** The exchange with one member: its new states, what was sent, what it revealed. */
  function ExchangeWith(states: States, m: Member, log: LogState, lastIndex: LogIndex, now: int, replies: NodeId -> AppendReply, term: int, leaderId: NodeId): Replication {
    var s1 := EnsureState(states, m.id, log.lastIndex);
    var f := s1[m.id];
    if !ShouldContact(f, lastIndex.index, now) then Replication(s1, [], [], None)
    else match BuildRequest(log, lastIndex, f, f.lastAppendRequest.None?, term, leaderId)
      case Err(e) => Replication(s1, [], [], Some(e))
      case Ok(request) =>
        var (f2, newer) := AfterReply(f, request, replies(m.id), term);
        Replication(s1[m.id := f2], [Sent(AppendEntries(request), m.address)],
                    if newer.Some? then [(newer.value, m)] else [], None)
  }

  function ReplicateAll(states: States, members: seq<Member>, log: LogState, lastIndex: LogIndex, now: int, replies: NodeId -> AppendReply, term: int, leaderId: NodeId): Replication
    decreases |members|
  {
    if members == [] then Replication(states, [], [], None)
    else
      var one := ExchangeWith(states, members[0], log, lastIndex, now, replies, term, leaderId);
      Then(one, ReplicateAll(one.states, members[1..], log, lastIndex, now, replies, term, leaderId))
  }

  /** A tick reports only terms above the leader's own: a refusal counts as a
      newer term only when the follower's term is higher. */
  lemma {:induction false} ReportedTermsAreNewer(states: States, members: seq<Member>, log: LogState, lastIndex: LogIndex, now: int, replies: NodeId -> AppendReply, term: int, leaderId: NodeId)
    ensures var x := ReplicateAll(states, members, log, lastIndex, now, replies, term, leaderId);
            forall k :: 0 <= k < |x.newerTerms| ==> x.newerTerms[k].0 > term
    decreases |members|
  {
    if members != [] {
      var one := ExchangeWith(states, members[0], log, lastIndex, now, replies, term, leaderId);
      ExchangeReportsNewer(states, members[0], log, lastIndex, now, replies, term, leaderId);
      ReportedTermsAreNewer(one.states, members[1..], log, lastIndex, now, replies, term, leaderId);
      var rest := ReplicateAll(one.states, members[1..], log, lastIndex, now, replies, term, leaderId);
      assert var x := ReplicateAll(one.states, members[1..], log, lastIndex, now, replies, term, leaderId);
             forall k :: 0 <= k < |x.newerTerms| ==> x.newerTerms[k].0 > term;
      var all := one.newerTerms + rest.newerTerms;
      forall k | 0 <= k < |all|
        ensures all[k].0 > term
      {
        if k < |one.newerTerms| {
          assert all[k] == one.newerTerms[k];
        } else {
          assert all[k] == rest.newerTerms[k - |one.newerTerms|];
        }
      }
    }
  }

  lemma ExchangeReportsNewer(states: States, m: Member, log: LogState, lastIndex: LogIndex, now: int, replies: NodeId -> AppendReply, term: int, leaderId: NodeId)
    ensures var one := ExchangeWith(states, m, log, lastIndex, now, replies, term, leaderId);
            forall k :: 0 <= k < |one.newerTerms| ==> one.newerTerms[k].0 > term
  {
    var s1 := EnsureState(states, m.id, log.lastIndex);
    var f := s1[m.id];
    if ShouldContact(f, lastIndex.index, now) {
      var req := BuildRequest(log, lastIndex, f, f.lastAppendRequest.None?, term, leaderId);
      if req.Ok? {
        var (f2, newer) := AfterReply(f, req.value, replies(m.id), term);
        assert newer.Some? ==> newer.value > term;
      }
    }
  }

  /** The tick over members[i..] after `x`: the exchange with members[i]
      joins `x`, and the tick goes on over members[i+1..]. */
  lemma ReplicateAllStep(target: Replication, x: Replication, states: States, members: seq<Member>, i: int, log: LogState, lastIndex: LogIndex, now: int, replies: NodeId -> AppendReply, term: int, leaderId: NodeId)
    requires 0 <= i < |members|
    requires target == Then(x, ReplicateAll(states, members[i..], log, lastIndex, now, replies, term, leaderId))
    ensures var one := ExchangeWith(states, members[i], log, lastIndex, now, replies, term, leaderId);
            target == Then(Then(x, one), ReplicateAll(one.states, members[i + 1..], log, lastIndex, now, replies, term, leaderId))
  {
    assert members[i..][0] == members[i] && members[i..][1..] == members[i + 1..];
    var one := ExchangeWith(states, members[i], log, lastIndex, now, replies, term, leaderId);
    ThenAssociative(x, one, ReplicateAll(one.states, members[i + 1..], log, lastIndex, now, replies, term, leaderId));
  }

  /** Nothing left to exchange: the tick is what was gathered. */
  lemma ReplicateAllDone(target: Replication, x: Replication, members: seq<Member>, log: LogState, lastIndex: LogIndex, now: int, replies: NodeId -> AppendReply, term: int, leaderId: NodeId)
    requires target == Then(x, ReplicateAll(x.states, members[|members|..], log, lastIndex, now, replies, term, leaderId))
    ensures target == x
  {
    assert members[|members|..] == [];
    assert x.sent + [] == x.sent && x.newerTerms + [] == x.newerTerms;
  }

  /** `a` followed by `b`: b's states, both sends and reports, a's error first. */
  function Then(a: Replication, b: Replication): Replication {
    Replication(b.states, a.sent + b.sent, a.newerTerms + b.newerTerms, if a.error.Some? then a.error else b.error)
  }

  lemma ThenAssociative(a: Replication, b: Replication, c: Replication)
    ensures Then(a, Then(b, c)) == Then(Then(a, b), c)
  {
    assert a.sent + (b.sent + c.sent) == (a.sent + b.sent) + c.sent;
    assert a.newerTerms + (b.newerTerms + c.newerTerms) == (a.newerTerms + b.newerTerms) + c.newerTerms;
  }

  // ---------------------------------------------------------------------
  // Majority

  /** How many tracked followers have replicated at least `m`. */
  function CountAtLeast(states: States, m: int): nat {
    |set k | k in states && states[k].matchIndex >= m|
  }

  /** C#'s `/` on int truncates toward zero. */
  function HalfTowardZero(n: int): int {
    if n >= 0 then n / 2 else -((-n) / 2)
  }

  predicate HasMajority(states: States, nodeCount: int, m: int) {
    CountAtLeast(states, m) > HalfTowardZero(nodeCount)
  }

  /** The follower match indexes that a majority has reached. */
  ghost function Candidates(states: States, nodeCount: int): set<int> {
    set k | k in states && HasMajority(states, nodeCount, states[k].matchIndex) :: states[k].matchIndex
  }

  lemma NonEmptyHasElement(s: set<int>)
    requires s != {}
    ensures exists x :: x in s
  {
    if forall x :: x !in s {
      assert false;
    }
  }

  ghost function MaxOf(s: set<int>): (m: int)
    requires s != {}
    ensures m in s && forall z :: z in s ==> z <= m
  {
    NonEmptyHasElement(s);
    var x :| x in s;
    if s == {x} then x
    else
      var y := MaxOf(s - {x});
      assert forall z :: z in s ==> z == x || z in s - {x};
      if x < y then y else x
  }

  /** The first match index, in descending order, that a majority has
      reached: the largest such, or 0 when there is none. */
  ghost function MajorityMatch(states: States, nodeCount: int): int {
    var c := Candidates(states, nodeCount);
    if c == {} then 0 else MaxOf(c)
  }

  /** The apply/commit pass over `cmds`, the commands at `from`, `from`+1, ...
      Each is applied, then committed, then its pending result completed; the
      first exception stops the pass. */
  datatype CommitRun = CommitRun(log: LogState, machine: CounterState, pending: map<int, Pending>, outcome: Outcome)

  function Complete(pending: map<int, Pending>, index: int, result: int): map<int, Pending> {
    if index in pending && pending[index].Waiting? then pending[index := Completed(result)] else pending
  }

  function ApplyAndCommit(log: LogState, machine: CounterState, pending: map<int, Pending>, cmds: seq<Command>, from: int): CommitRun
    decreases |cmds|
  {
    if cmds == [] then CommitRun(log, machine, pending, Done)
    else
      var (m1, r) := Step(machine, cmds[0], from);
      if r.Err? then CommitRun(log, m1, pending, Failed(r.error))
      else match CommitTo(log, from)
        case Err(e) => CommitRun(log, m1, pending, Failed(e))
        case Ok(log1) => ApplyAndCommit(log1, m1, Complete(pending, from, r.value), cmds[1..], from + 1)
  }

  /** One step of the pass: apply the first command, commit it, complete its client. */
  lemma ApplyAndCommitFirst(log: LogState, machine: CounterState, pending: map<int, Pending>, cmds: seq<Command>, from: int)
    requires cmds != []
    ensures var (m1, r) := Step(machine, cmds[0], from);
            ApplyAndCommit(log, machine, pending, cmds, from) ==
              if r.Err? then CommitRun(log, m1, pending, Failed(r.error))
              else if CommitTo(log, from).Err? then CommitRun(log, m1, pending, Failed(CommitTo(log, from).error))
              else ApplyAndCommit(CommitTo(log, from).value, m1, Complete(pending, from, r.value), cmds[1..], from + 1)
  {
  }

  /** The commit half of a tick, given the majority index `h`. */
  function CommitPhase(log: LogState, machine: CounterState, pending: map<int, Pending>, h: int): CommitRun {
    var c := log.commitedIndex;
    if h <= c then CommitRun(log, machine, pending, Done)
    else match LogsAt(log, c + 1, h - c)
      case Err(e) => CommitRun(log, machine, pending, Failed(e))
      case Ok(cmds) => ApplyAndCommit(log, machine, pending, cmds, c + 1)
  }

  // ---------------------------------------------------------------------
  // Properties

  /** A follower seen for the first time starts just past the leader's log
      with nothing matched; a known follower's state is left as it is. */
  lemma EnsureStateInitialises(states: States, id: NodeId, lastIndex: LogIndex)
    ensures id !in states ==> EnsureState(states, id, lastIndex)[id] == FollowerReplicationState(lastIndex.index + 1, 0, None)
    ensures id in states ==> EnsureState(states, id, lastIndex)[id] == states[id]
  {
  }

  /** Every request carries PrevLogIndex = NextIndex - 1 and the log's term
      there (0 at index 0); entries are attached only when this is not the
      first contact and the log extends past PrevLogIndex, and then they are
      exactly the commands at PrevLogIndex+1 .. LastIndex. */
  lemma RequestShape(log: LogState, f: FollowerReplicationState, skipEntries: bool, term: int, leaderId: NodeId)
    requires Consistent(log)
    requires BuildRequest(log, log.lastIndex, f, skipEntries, term, leaderId).Ok?
    ensures var r := BuildRequest(log, log.lastIndex, f, skipEntries, term, leaderId).value;
            && r.term == term && r.leaderId == leaderId && r.leaderCommitIndex == log.commitedIndex
            && r.prevLogIndex == f.nextIndex - 1
            && (r.prevLogIndex == 0 ==> r.prevLogTerm == 0)
            && (r.prevLogIndex != 0 ==> TermAt(log, r.prevLogIndex) == Ok(r.prevLogTerm))
            && (r.entries.Some? <==> !skipEntries && log.lastIndex.index > r.prevLogIndex)
            && (r.entries.Some? ==>
                  && |r.entries.value| == log.lastIndex.index - r.prevLogIndex
                  && forall i :: r.prevLogIndex < i <= log.lastIndex.index ==>
                       EntryAt(log, i).Ok? && r.entries.value[i - r.prevLogIndex - 1] == EntryAt(log, i).value.entry)
  {
    RequestHeader(log, f, skipEntries, term, leaderId);
    RequestEntries(log, f, skipEntries, term, leaderId);
  }

  /** The fields of a request other than its entries. */
  lemma RequestHeader(log: LogState, f: FollowerReplicationState, skipEntries: bool, term: int, leaderId: NodeId)
    requires BuildRequest(log, log.lastIndex, f, skipEntries, term, leaderId).Ok?
    ensures var r := BuildRequest(log, log.lastIndex, f, skipEntries, term, leaderId).value;
            && r.term == term && r.leaderId == leaderId && r.leaderCommitIndex == log.commitedIndex
            && r.prevLogIndex == f.nextIndex - 1
            && (r.prevLogIndex == 0 ==> r.prevLogTerm == 0)
            && (r.prevLogIndex != 0 ==> TermAt(log, r.prevLogIndex) == Ok(r.prevLogTerm))
            && (r.entries.Some? <==> !skipEntries && log.lastIndex.index > r.prevLogIndex)
  {
  }

  /** The entries of a request: the commands at PrevLogIndex+1 .. LastIndex. */
  lemma RequestEntries(log: LogState, f: FollowerReplicationState, skipEntries: bool, term: int, leaderId: NodeId)
    requires Consistent(log)
    requires BuildRequest(log, log.lastIndex, f, skipEntries, term, leaderId).Ok?
    ensures var r := BuildRequest(log, log.lastIndex, f, skipEntries, term, leaderId).value;
            r.entries.Some? ==>
              && |r.entries.value| == log.lastIndex.index - r.prevLogIndex
              && forall i :: r.prevLogIndex < i <= log.lastIndex.index ==>
                   EntryAt(log, i).Ok? && r.entries.value[i - r.prevLogIndex - 1] == EntryAt(log, i).value.entry
  {
    var prev := f.nextIndex - 1;
    var r := BuildRequest(log, log.lastIndex, f, skipEntries, term, leaderId).value;
    if r.entries.Some? {
      RequestHeader(log, f, skipEntries, term, leaderId);
      assert Max(log.lastIndex.index - prev, 1) == log.lastIndex.index - prev;
      TailEntries(log, prev, r.entries.value);
    }
  }

  /** The commands LogsAt reads after `prev` up to the last index, position by position. */
  lemma TailEntries(log: LogState, prev: int, logs: seq<Command>)
    requires Consistent(log)
    requires LogsAt(log, prev + 1, log.lastIndex.index - prev) == Ok(logs)
    requires prev < log.lastIndex.index
    ensures |logs| == log.lastIndex.index - prev
    ensures forall i :: prev < i <= log.lastIndex.index ==> EntryAt(log, i).Ok? && logs[i - prev - 1] == EntryAt(log, i).value.entry
  {
    var n := log.lastIndex.index - prev;
    LogsAtIsRange(log, prev + 1, n);
    forall i | prev < i <= log.lastIndex.index
      ensures EntryAt(log, i).Ok? && logs[i - prev - 1] == EntryAt(log, i).value.entry
    {
      assert prev + 1 <= i < prev + 1 + n;
    }
  }

  /** Building the request fails only on the log reads: a PrevLogIndex other
      than 0 outside the retained entries, or entries to send that start before them. */
  lemma {:induction false} RequestFailsOnlyOutsideLog(log: LogState, f: FollowerReplicationState, skipEntries: bool, term: int, leaderId: NodeId)
    requires Consistent(log)
    ensures var prev := f.nextIndex - 1;
            BuildRequest(log, log.lastIndex, f, skipEntries, term, leaderId).Err? <==>
              || (prev != 0 && !(log.startIndex <= prev <= log.lastIndex.index))
              || (!skipEntries && log.lastIndex.index > prev && prev + 1 < log.startIndex)
  {
    var prev := f.nextIndex - 1;
    TermAtMatchesEntryAt(log, prev);
    if !skipEntries && log.lastIndex.index > prev {
      LogsAtBounds(log, prev + 1, Max(log.lastIndex.index - prev, 1));
    }
  }

  /** Success advances NextIndex by the number sent and sets MatchIndex to
      PrevLogIndex plus that number; a refusal with a higher term leaves both
      indices and reports the term; any other refusal backs NextIndex off by
      exactly one; a timeout only stamps the time. */
  lemma ReplyHandling(f: FollowerReplicationState, request: AppendEntriesRequest, reply: AppendReply, term: int)
    ensures var (g, newer) := AfterReply(f, request, reply, term);
            && g.lastAppendRequest == Some(reply.at)
            && (reply.TimedOut? ==> g.nextIndex == f.nextIndex && g.matchIndex == f.matchIndex && newer.None?)
            && (reply.Responded? && reply.response.success ==>
                  g.nextIndex == f.nextIndex + EntryCount(request) && g.matchIndex == request.prevLogIndex + EntryCount(request) && newer.None?)
            && (reply.Responded? && !reply.response.success && reply.response.term > term ==>
                  g.nextIndex == f.nextIndex && g.matchIndex == f.matchIndex && newer == Some(reply.response.term))
            && (reply.Responded? && !reply.response.success && reply.response.term <= term ==>
                  g.nextIndex == f.nextIndex - 1 && g.matchIndex == f.matchIndex && newer.None?)
  {
  }

  /** A tick sends to a member exactly when the contact rule holds for its
      (possibly new) state, and then sends one AppendEntries to its address. */
  lemma ExchangeSendsIffContacted(states: States, m: Member, log: LogState, now: int, replies: NodeId -> AppendReply, term: int, leaderId: NodeId)
    ensures var f := EnsureState(states, m.id, log.lastIndex)[m.id];
            var x := ExchangeWith(states, m, log, log.lastIndex, now, replies, term, leaderId);
            && (|x.sent| > 0 ==> ShouldContact(f, log.lastIndex.index, now))
            && (ShouldContact(f, log.lastIndex.index, now) && x.error.None? ==> |x.sent| == 1 && x.sent[0].to == m.address && x.sent[0].message.AppendEntries?)
            && (!ShouldContact(f, log.lastIndex.index, now) ==> x.states == EnsureState(states, m.id, log.lastIndex) && x.sent == [] && x.error.None?)
            && x.states.Keys == states.Keys + {m.id}
  {
  }

  /** A follower never contacted is always contacted, with a heartbeat that carries no entries. */
  lemma FirstContactIsHeartbeat(f: FollowerReplicationState, log: LogState, now: int, term: int, leaderId: NodeId)
    requires f.lastAppendRequest.None?
    ensures ShouldContact(f, log.lastIndex.index, now)
    ensures BuildRequest(log, log.lastIndex, f, f.lastAppendRequest.None?, term, leaderId).Ok? ==>
              BuildRequest(log, log.lastIndex, f, f.lastAppendRequest.None?, term, leaderId).value.entries.None?
  {
  }

  /** After a tick every member has a replication state and no other key was added. */
  lemma {:induction false} ReplicateAllTracksMembers(states: States, members: seq<Member>, log: LogState, now: int, replies: NodeId -> AppendReply, term: int, leaderId: NodeId)
    ensures var r := ReplicateAll(states, members, log, log.lastIndex, now, replies, term, leaderId);
            r.states.Keys == states.Keys + MemberIds(members)
    ensures |ReplicateAll(states, members, log, log.lastIndex, now, replies, term, leaderId).sent| <= |members|
    decreases |members|
  {
    if members != [] {
      var one := ExchangeWith(states, members[0], log, log.lastIndex, now, replies, term, leaderId);
      ExchangeTouchesOne(states, members[0], log, now, replies, term, leaderId);
      ReplicateAllTracksMembers(one.states, members[1..], log, now, replies, term, leaderId);
      MemberIdsCons(members);
    }
  }

  /** The ids of `members`. */
  function MemberIds(members: seq<Member>): set<NodeId> {
    set k | 0 <= k < |members| :: members[k].id
  }

  lemma MemberIdsCons(members: seq<Member>)
    requires members != []
    ensures MemberIds(members) == {members[0].id} + MemberIds(members[1..])
  {
    var ids, restIds := MemberIds(members), MemberIds(members[1..]);
    forall x | x in ids ensures x in {members[0].id} + restIds {
      var k :| 0 <= k < |members| && members[k].id == x;
      if k > 0 { assert members[1..][k - 1].id == x; }
    }
    forall x | x in restIds ensures x in ids {
      var k :| 0 <= k < |members[1..]| && members[1..][k].id == x;
      assert members[k + 1].id == x;
    }
  }

  lemma ExchangeTouchesOne(states: States, m: Member, log: LogState, now: int, replies: NodeId -> AppendReply, term: int, leaderId: NodeId)
    ensures var x := ExchangeWith(states, m, log, log.lastIndex, now, replies, term, leaderId);
            x.states.Keys == states.Keys + {m.id} && |x.sent| <= 1
  {
  }

  lemma {:induction false} CandidatesWitness(states: States, nodeCount: int, m: int)
    requires m in Candidates(states, nodeCount)
    ensures HasMajority(states, nodeCount, m)
    ensures exists k :: k in states && states[k].matchIndex == m
  {
  }

  /** The majority index is reached by more than NodeCount/2 followers (the
      leader itself is not counted) and no higher follower match index is;
      with no such index it is 0. */
  lemma MajorityMatchIsLargestReplicated(states: States, nodeCount: int)
    ensures var h := MajorityMatch(states, nodeCount);
            && (Candidates(states, nodeCount) != {} ==> HasMajority(states, nodeCount, h) && exists k :: k in states && states[k].matchIndex == h)
            && (Candidates(states, nodeCount) == {} ==> h == 0)
            && forall k :: k in states && states[k].matchIndex > h ==> !HasMajority(states, nodeCount, states[k].matchIndex)
  {
    var c := Candidates(states, nodeCount);
    if c != {} {
      CandidatesWitness(states, nodeCount, MaxOf(c));
    }
    assert forall k :: k in states && HasMajority(states, nodeCount, states[k].matchIndex) ==> states[k].matchIndex in c;
  }

  /** An index has a majority exactly when twice the number of followers
      that reached it exceeds the node count; the leader itself is not one
      of them, so with three nodes both followers are needed. */
  lemma MajorityCountsFollowersOnly(states: States, nodeCount: int, m: int)
    ensures nodeCount >= 0 ==> (HasMajority(states, nodeCount, m) <==> 2 * CountAtLeast(states, m) > nodeCount)
    ensures nodeCount == 3 ==> (HasMajority(states, nodeCount, m) <==> CountAtLeast(states, m) >= 2)
  {
  }

  /** The leader's end-to-end apply: when the state machine stands at the
      commit index and the log holds `cmds` at the following indices, the pass
      applies them in order at CommitedIndex+1, +2, ..., commits each, and
      leaves both at CommitedIndex + |cmds|; every waiting client gets the
      counter value its command produced. */
  lemma ApplyAndCommitInOrder(log: LogState, machine: CounterState, pending: map<int, Pending>, cmds: seq<Command>)
    requires machine.index == log.commitedIndex
    requires log.commitedIndex + |cmds| <= log.lastIndex.index
    requires forall k :: 0 <= k < |cmds| ==> Supported(cmds[k])
    ensures var run := ApplyAndCommit(log, machine, pending, cmds, log.commitedIndex + 1);
            && run.outcome == Done
            && run.log == log.(commitedIndex := log.commitedIndex + |cmds|)
            && run.machine == ApplyFrom(machine, cmds, machine.index + 1).0
            && run.machine.index == log.commitedIndex + |cmds|
            && (forall i :: i in pending && pending[i].Waiting? && log.commitedIndex < i <= log.commitedIndex + |cmds| ==>
                  i in run.pending && run.pending[i] == Completed(Replay(machine.counter, cmds[..i - log.commitedIndex])))
            && (forall i :: i in pending && !(pending[i].Waiting? && log.commitedIndex < i <= log.commitedIndex + |cmds|) ==>
                  i in run.pending && run.pending[i] == pending[i])
            && run.pending.Keys == pending.Keys
  {
    ApplyAndCommitAdvances(log, machine, pending, cmds);
    ApplyAndCommitCompletes(log, machine, pending, cmds);
  }

  /** The log and machine half of ApplyAndCommitInOrder. */
  lemma {:induction false} ApplyAndCommitAdvances(log: LogState, machine: CounterState, pending: map<int, Pending>, cmds: seq<Command>)
    requires machine.index == log.commitedIndex
    requires log.commitedIndex + |cmds| <= log.lastIndex.index
    requires forall k :: 0 <= k < |cmds| ==> Supported(cmds[k])
    ensures var run := ApplyAndCommit(log, machine, pending, cmds, log.commitedIndex + 1);
            && run.outcome == Done
            && run.log == log.(commitedIndex := log.commitedIndex + |cmds|)
            && run.machine == ApplyFrom(machine, cmds, machine.index + 1).0
            && run.machine.index == log.commitedIndex + |cmds|
    decreases |cmds|
  {
    ApplyInOrder(machine, cmds);
    if cmds != [] {
      var c := log.commitedIndex;
      var (m1, r) := Step(machine, cmds[0], c + 1);
      var log1 := log.(commitedIndex := c + 1);
      assert CommitTo(log, c + 1) == Ok(log1);
      ApplyAndCommitAdvances(log1, m1, Complete(pending, c + 1, r.value), cmds[1..]);
    }
  }

  /** The pending-results half of ApplyAndCommitInOrder. */
  lemma {:induction false} ApplyAndCommitCompletes(log: LogState, machine: CounterState, pending: map<int, Pending>, cmds: seq<Command>)
    requires machine.index == log.commitedIndex
    requires log.commitedIndex + |cmds| <= log.lastIndex.index
    requires forall k :: 0 <= k < |cmds| ==> Supported(cmds[k])
    ensures var run := ApplyAndCommit(log, machine, pending, cmds, log.commitedIndex + 1);
            && (forall i :: i in pending && pending[i].Waiting? && log.commitedIndex < i <= log.commitedIndex + |cmds| ==>
                  i in run.pending && run.pending[i] == Completed(Replay(machine.counter, cmds[..i - log.commitedIndex])))
            && (forall i :: i in pending && !(pending[i].Waiting? && log.commitedIndex < i <= log.commitedIndex + |cmds|) ==>
                  i in run.pending && run.pending[i] == pending[i])
            && run.pending.Keys == pending.Keys
    decreases |cmds|
  {
    if cmds != [] {
      var c := log.commitedIndex;
      var (m1, r) := Step(machine, cmds[0], c + 1);
      var log1 := log.(commitedIndex := c + 1);
      assert CommitTo(log, c + 1) == Ok(log1);
      var p1 := Complete(pending, c + 1, r.value);
      ApplyAndCommitFirst(log, machine, pending, cmds, c + 1);
      var run := ApplyAndCommit(log, machine, pending, cmds, c + 1);
      assert run == ApplyAndCommit(log1, m1, p1, cmds[1..], c + 2);
      ApplyAndCommitCompletes(log1, m1, p1, cmds[1..]);
      forall i | i in pending && pending[i].Waiting? && c < i <= c + |cmds|
        ensures i in run.pending && run.pending[i] == Completed(Replay(machine.counter, cmds[..i - c]))
      {
        if i == c + 1 {
          assert cmds[..1][1..] == [];
        } else {
          assert cmds[..i - c][1..] == cmds[1..][..i - c - 1];
        }
      }
      forall i | i in pending && !(pending[i].Waiting? && c < i <= c + |cmds|)
        ensures i in run.pending && run.pending[i] == pending[i]
      {
      }
    }
  }

  // ---------------------------------------------------------------------
  // Counting loop

  /** Counts the followers whose MatchIndex is at least `m`, one key at a time. */
  method CountMatchAtLeast(states: States, m: int) returns (n: nat)
    ensures n == CountAtLeast(states, m)
  {
    n := 0;
    var rest := states.Keys;
    while rest != {}
      invariant rest <= states.Keys
      invariant n == |set k | k in states.Keys - rest && states[k].matchIndex >= m|
      decreases rest
    {
      var j :| j in rest;
      ghost var before := set k | k in states.Keys - rest && states[k].matchIndex >= m;
      ghost var after := set k | k in states.Keys - (rest - {j}) && states[k].matchIndex >= m;
      if states[j].matchIndex >= m {
        assert after == before + {j};
        n := n + 1;
      } else {
        assert after == before;
      }
      rest := rest - {j};
    }
    assert (set k | k in states.Keys - {} && states[k].matchIndex >= m) == (set k | k in states && states[k].matchIndex >= m);
  }

  // ---------------------------------------------------------------------
  // The leader object

  class RaftLeaderState {
    const term: int
    const nodeCount: int
    const selfId: NodeId
    const log: InMemoryLogRepository
    const machine: CounterStateMachine
    var replicationStateByNode: States
    var pendingCommandResults: map<int, Pending>
    var outbox: seq<Sent>

    constructor (term: int, nodeCount: int, selfId: NodeId, log: InMemoryLogRepository, machine: CounterStateMachine)
      ensures this.term == term && this.nodeCount == nodeCount && this.selfId == selfId
      ensures this.log == log && this.machine == machine
      ensures replicationStateByNode == map[] && pendingCommandResults == map[] && outbox == []
    {
      this.term := term;
      this.nodeCount := nodeCount;
      this.selfId := selfId;
      this.log := log;
      this.machine := machine;
      replicationStateByNode := map[];
      pendingCommandResults := map[];
      outbox := [];
    }

    method EnsureReplicationState(nodeId: NodeId) returns (f: FollowerReplicationState)
      modifies this`replicationStateByNode
      ensures replicationStateByNode == EnsureState(old(replicationStateByNode), nodeId, log.lastIndex)
      ensures f == replicationStateByNode[nodeId]
    {
      if nodeId !in replicationStateByNode {
        replicationStateByNode := replicationStateByNode[nodeId := NewReplicationState(log.lastIndex)];
      }
      f := replicationStateByNode[nodeId];
    }

    /** The request for a follower: PrevLogIndex/PrevLogTerm read from the
        log, and the entries after it unless this is a first contact. */
    method BuildAppendEntries(lastIndex: LogIndex, f: FollowerReplicationState, skipEntries: bool) returns (r: Result<AppendEntriesRequest>)
      ensures r == BuildRequest(log.State(), lastIndex, f, skipEntries, term, selfId)
    {
      var prevLogIndex := f.nextIndex - 1;
      var prevLogTerm := 0;
      if prevLogIndex != 0 {
        var t := log.GetTermAtIndex(prevLogIndex);
        if t.Err? {
          return Err(t.error);
        }
        prevLogTerm := t.value;
      }
      var entries: Option<seq<Command>> := None;
      if !skipEntries && lastIndex.index > prevLogIndex {
        var logsCount := Max(lastIndex.index - prevLogIndex, 1);
        var logs := log.GetLogsAtIndex(prevLogIndex + 1, logsCount);
        if logs.Err? {
          return Err(logs.error);
        }
        entries := Some(logs.value);
      }
      r := Ok(AppendEntriesRequest(term, selfId, log.commitedIndex, prevLogIndex, prevLogTerm, entries));
    }

    /** Sends the request to the member, then updates its state from the reply. */
    method ReplicateLogWithFollower(lastIndex: LogIndex, member: Member, skipEntries: bool, reply: AppendReply) returns (o: Outcome, newer: Option<int>)
      requires member.id in replicationStateByNode
      modifies this`replicationStateByNode, this`outbox
      ensures member.id in replicationStateByNode
      ensures var f := old(replicationStateByNode)[member.id];
              match BuildRequest(log.State(), lastIndex, f, skipEntries, term, selfId)
              case Err(e) =>
                o == Failed(e) && newer.None? && replicationStateByNode == old(replicationStateByNode) && outbox == old(outbox)
              case Ok(request) =>
                && o == Done
                && outbox == old(outbox) + [Sent(AppendEntries(request), member.address)]
                && (replicationStateByNode[member.id], newer) == AfterReply(f, request, reply, term)
                && replicationStateByNode == old(replicationStateByNode)[member.id := replicationStateByNode[member.id]]
    {
      var f := replicationStateByNode[member.id];
      var built := BuildAppendEntries(lastIndex, f, skipEntries);
      if built.Err? {
        return Failed(built.error), None;
      }
      var request := built.value;
      outbox := outbox + [Sent(AppendEntries(request), member.address)];
      newer := None;
      match reply {
        case TimedOut(at) =>
          f := f.(lastAppendRequest := Some(at));
        case Responded(response, at) =>
          f := f.(lastAppendRequest := Some(at));
          if response.success {
            var count := EntryCount(request);
            f := f.(nextIndex := f.nextIndex + count);
            var newMatchIndex := request.prevLogIndex + count;
            if newMatchIndex != f.matchIndex {
              f := f.(matchIndex := newMatchIndex);
            }
          } else if response.term > term {
            newer := Some(response.term);
          } else {
            f := f.(nextIndex := f.nextIndex - 1);
          }
      }
      replicationStateByNode := replicationStateByNode[member.id := f];
      o := Done;
    }

    /** The largest follower MatchIndex held by more than NodeCount/2
        followers, but never below the commit index. */
    method FindMajorityReplicatedIndex() returns (r: int)
      ensures r == Max(MajorityMatch(replicationStateByNode, nodeCount), log.commitedIndex)
    {
      var states := replicationStateByNode;
      var majorityCount := HalfTowardZero(nodeCount);
      var best: Option<int> := None;
      var rest := states.Keys;
      while rest != {}
        invariant rest <= states.Keys
        invariant best.None? ==> forall k :: k in states.Keys - rest ==> !HasMajority(states, nodeCount, states[k].matchIndex)
        invariant best.Some? ==> best.value in Candidates(states, nodeCount)
        invariant best.Some? ==> forall k :: k in states.Keys - rest && HasMajority(states, nodeCount, states[k].matchIndex) ==> states[k].matchIndex <= best.value
        decreases rest
      {
        var k :| k in rest;
        var m := states[k].matchIndex;
        var count := CountMatchAtLeast(states, m);
        if count > majorityCount && (best.None? || m > best.value) {
          best := Some(m);
        }
        rest := rest - {k};
      }
      var majorityMatchIndex := if best.Some? then best.value else 0;
      ghost var c := Candidates(states, nodeCount);
      if best.Some? {
        assert forall x :: x in c ==> x <= best.value;
        assert MaxOf(c) == best.value;
      } else {
        assert c == {};
      }
      r := Max(majorityMatchIndex, log.commitedIndex);
    }

    /** One member's turn in a tick: make sure it is tracked, then contact it
        if the contact rule says so. */
    method ReplicateToMember(lastIndex: LogIndex, m: Member, now: int, replies: NodeId -> AppendReply) returns (one: Replication)
      requires lastIndex == log.lastIndex
      modifies this`replicationStateByNode, this`outbox
      ensures one == ExchangeWith(old(replicationStateByNode), m, log.State(), lastIndex, now, replies, term, selfId)
      ensures replicationStateByNode == one.states
      ensures outbox == old(outbox) + one.sent
    {
      var f := EnsureReplicationState(m.id);
      var sendPing := lastIndex.index >= f.nextIndex || f.lastAppendRequest == None || now >= f.lastAppendRequest.value + RaftOptions.LeaderPingInterval;
      if !sendPing {
        return Replication(replicationStateByNode, [], [], None);
      }
      var sentBefore := |outbox|;
      var o, newer := ReplicateLogWithFollower(lastIndex, m, f.lastAppendRequest.None?, replies(m.id));
      if o.Failed? {
        return Replication(replicationStateByNode, [], [], Some(o.error));
      }
      one := Replication(replicationStateByNode, outbox[sentBefore..], if newer.Some? then [(newer.value, m)] else [], None);
    }

    /** The replication half of a tick: every member in turn. */
    method ReplicateToFollowers(members: seq<Member>, now: int, replies: NodeId -> AppendReply) returns (x: Replication)
      modifies this`replicationStateByNode, this`outbox
      ensures x == ReplicateAll(old(replicationStateByNode), members, log.State(), log.lastIndex, now, replies, term, selfId)
      ensures replicationStateByNode == x.states
      ensures outbox == old(outbox) + x.sent
    {
      var lastIndex := log.lastIndex;
      ghost var target := ReplicateAll(replicationStateByNode, members, log.State(), lastIndex, now, replies, term, selfId);
      x := Replication(replicationStateByNode, [], [], None);
      assert members[0..] == members;
      assert target == Then(x, target);
      var i := 0;
      while i < |members|
        invariant 0 <= i <= |members|
        invariant x.states == replicationStateByNode
        invariant outbox == old(outbox) + x.sent
        invariant target == Then(x, ReplicateAll(replicationStateByNode, members[i..], log.State(), lastIndex, now, replies, term, selfId))
      {
        x := ReplicateNext(target, old(outbox), x, members, i, lastIndex, now, replies);
        i := i + 1;
      }
      ReplicateAllDone(target, x, members, log.State(), lastIndex, now, replies, term, selfId);
    }

    /** One turn of the tick's loop: the exchange with members[i] joins `x`. */
    method ReplicateNext(ghost target: Replication, ghost before: seq<Sent>, x: Replication, members: seq<Member>, i: int, lastIndex: LogIndex, now: int, replies: NodeId -> AppendReply) returns (x': Replication)
      requires 0 <= i < |members| && lastIndex == log.lastIndex
      requires x.states == replicationStateByNode && outbox == before + x.sent
      requires target == Then(x, ReplicateAll(replicationStateByNode, members[i..], log.State(), lastIndex, now, replies, term, selfId))
      modifies this`replicationStateByNode, this`outbox
      ensures x'.states == replicationStateByNode
      ensures outbox == before + x'.sent
      ensures target == Then(x', ReplicateAll(replicationStateByNode, members[i + 1..], log.State(), lastIndex, now, replies, term, selfId))
    {
      ReplicateAllStep(target, x, replicationStateByNode, members, i, log.State(), lastIndex, now, replies, term, selfId);
      var one := ReplicateToMember(lastIndex, members[i], now, replies);
      x' := Then(x, one);
    }

    /** The commit half of a tick: apply and commit CommitedIndex+1 .. h in
        order, completing pending client results. */
    method ApplyCommitted(h: int) returns (o: Outcome)
      modifies log, machine, this`pendingCommandResults
      ensures CommitPhase(old(log.State()), old(machine.State()), old(pendingCommandResults), h)
              == CommitRun(log.State(), machine.State(), pendingCommandResults, o)
    {
      var commitedIndex := log.commitedIndex;
      if h <= commitedIndex {
        return Done;
      }
      var logIndexStart := commitedIndex + 1;
      var logCount := h - commitedIndex;
      var logs := log.GetLogsAtIndex(logIndexStart, logCount);
      if logs.Err? {
        return Failed(logs.error);
      }
      o := CommitRange(logs.value, logIndexStart, logCount);
    }

    /** ApplyCommitted's loop: the commands at from, from+1, ... in turn. */
    method CommitRange(cmds: seq<Command>, from: int, count: int) returns (o: Outcome)
      requires |cmds| == count
      modifies log, machine, this`pendingCommandResults
      ensures ApplyAndCommit(old(log.State()), old(machine.State()), old(pendingCommandResults), cmds, from)
              == CommitRun(log.State(), machine.State(), pendingCommandResults, o)
    {
      ghost var target := ApplyAndCommit(log.State(), machine.State(), pendingCommandResults, cmds, from);
      assert cmds[0..] == cmds;
      var i := 0;
      while i < count
        invariant 0 <= i <= count
        invariant ApplyAndCommit(log.State(), machine.State(), pendingCommandResults, cmds[i..], from + i) == target
      {
        o := CommitOne(target, cmds, i, from);
        if o.Failed? {
          return;
        }
        i := i + 1;
      }
      assert cmds[i..] == [];
      o := Done;
    }

    /** One turn of CommitRange: apply cmds[i] at from+i, commit it, complete its client. */
    method CommitOne(ghost target: CommitRun, cmds: seq<Command>, i: int, from: int) returns (o: Outcome)
      requires 0 <= i < |cmds|
      requires ApplyAndCommit(log.State(), machine.State(), pendingCommandResults, cmds[i..], from + i) == target
      modifies log, machine, this`pendingCommandResults
      ensures o.Failed? ==> target == CommitRun(log.State(), machine.State(), pendingCommandResults, o)
      ensures o.Done? ==> ApplyAndCommit(log.State(), machine.State(), pendingCommandResults, cmds[i + 1..], from + (i + 1)) == target
    {
      assert cmds[i..][0] == cmds[i] && cmds[i..][1..] == cmds[i + 1..];
      ApplyAndCommitFirst(log.State(), machine.State(), pendingCommandResults, cmds[i..], from + i);
      var index := from + i;
      ghost var log0, pending0 := log.State(), pendingCommandResults;
      var result := machine.Apply(cmds[i], index);
      if result.Err? {
        return Failed(result.error);
      }
      o := log.Commit(index);
      if o.Failed? {
        return;
      }
      assert log.State() == CommitTo(log0, index).value;
      if index in pendingCommandResults && pendingCommandResults[index].Waiting? {
        pendingCommandResults := pendingCommandResults[index := Completed(result.value)];
      }
      assert pendingCommandResults == Complete(pending0, index, result.value);
    }

    /** One tick: replicate to every member, then (if no exception was raised)
        apply and commit up to the majority index.  The newer terms reported
        are returned to the node, which steps down for each. */
    method OnLoopRun(members: seq<Member>, now: int, replies: NodeId -> AppendReply) returns (o: Outcome, newerTerms: seq<(int, Member)>)
      modifies this`replicationStateByNode, this`outbox, this`pendingCommandResults, log, machine
      ensures var x := ReplicateAll(old(replicationStateByNode), members, old(log.State()), old(log.lastIndex), now, replies, term, selfId);
              && replicationStateByNode == x.states
              && outbox == old(outbox) + x.sent
              && newerTerms == x.newerTerms
              && (x.error.Some? ==> o == Failed(x.error.value) && log.State() == old(log.State())
                                     && machine.State() == old(machine.State()) && pendingCommandResults == old(pendingCommandResults))
              && (x.error.None? ==>
                    CommitPhase(old(log.State()), old(machine.State()), old(pendingCommandResults),
                                Max(MajorityMatch(x.states, nodeCount), old(log.commitedIndex)))
                    == CommitRun(log.State(), machine.State(), pendingCommandResults, o))
    {
      var x := ReplicateToFollowers(members, now, replies);
      newerTerms := x.newerTerms;
      if x.error.Some? {
        return Failed(x.error.value), newerTerms;
      }
      var h := FindMajorityReplicatedIndex();
      o := ApplyCommitted(h);
    }

    /** The appending half of a client request: append under the leader's
        term, then register a pending result for the new index. */
    method OnClientRequest(command: Command) returns (commandIndex: int)
      modifies log, this`pendingCommandResults
      ensures (log.State(), commandIndex) == AppendOne(old(log.State()), term, command)
      ensures pendingCommandResults ==
                if commandIndex in old(pendingCommandResults) then old(pendingCommandResults)
                else old(pendingCommandResults)[commandIndex := Waiting]
    {
      commandIndex := log.AppendEntry(term, command);
      if commandIndex !in pendingCommandResults {
        pendingCommandResults := pendingCommandResults[commandIndex := Waiting];
      }
    }
  }
}
