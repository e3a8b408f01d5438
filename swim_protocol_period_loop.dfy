/** The older SWIM protocol period loop, the one the cluster membership
    runs.  Each period it pings one randomly chosen member of the whole
    list; a target that has not answered by the end of the period becomes
    Suspicious.  Timer ticks, the clock and the random choices are
    parameters of the methods. */
module SwimProtocolPeriodLoopModule {
  import opened Common
  import opened SwimMessages
  import opened SwimMembers
  import SwimOptions
  import IpEndPoint
  import SwimFailureDetectorModule

  /** A target that never answers is Suspicious after its period; the next
      time it is picked it is Confirming again, with the new deadline. */
  lemma SilentTargetIsSuspected(s: MemberState, periodTimeout: int, nextTimeout: int, notifies: bool)
    requires s.status == Active
    ensures Run(s, [OnConfirming(periodTimeout), OnSuspicious], notifies).status == Suspicious
    ensures var r := Run(s, [OnConfirming(periodTimeout), OnSuspicious, OnConfirming(nextTimeout)], notifies);
      r.status == Confirming && r.suspiciousTimeout == Some(nextTimeout)
  {
    var calls := [OnConfirming(periodTimeout), OnSuspicious, OnConfirming(nextTimeout)];
    assert calls[..2] == [OnConfirming(periodTimeout), OnSuspicious];
    assert calls[..2][..1] == [OnConfirming(periodTimeout)] && calls[..2][..1][..0] == [];
    assert Run(s, calls[..2][..1], notifies) == Confirmed(s, periodTimeout, notifies);
    assert Run(s, calls[..2], notifies) == Suspected(Confirmed(s, periodTimeout, notifies), notifies);
  }

  class SwimProtocolPeriodLoop {
    var periodSequenceNumber: int
    /** The time the current protocol period ends. */
    var periodTimeout: int
    /** The member pinged in this period, if any. */
    var pingNode: SwimMember?
    /** When the Ack to the direct ping is due; cleared once it passed. */
    var pingAckTimeout: Option<int>
    /** Messages handed to the transport, in order. */
    var outbox: seq<Outgoing>

    /** The loop starts in period 1, with no target. */
    constructor (now: int)
      ensures periodSequenceNumber == 1 && periodTimeout == now + SwimOptions.ProtocolPeriod
      ensures pingNode == null && pingAckTimeout == None && outbox == []
    {
      periodSequenceNumber := 0;
      pingNode := null;
      pingAckTimeout := None;
      outbox := [];
      periodTimeout := now;
      new;
      AdvancePeriod(now);
    }

    method AdvancePeriod(now: int)
      modifies this
      ensures periodTimeout == now + SwimOptions.ProtocolPeriod
      ensures periodSequenceNumber == old(periodSequenceNumber) + 1
      ensures pingNode == old(pingNode) && pingAckTimeout == old(pingAckTimeout) && outbox == old(outbox)
    {
      periodTimeout := now + SwimOptions.ProtocolPeriod;
      periodSequenceNumber := periodSequenceNumber + 1;
    }

    /** One timer tick at `now`: a period that has ended starts the next one;
        otherwise an Ack deadline that has passed starts the indirect phase,
        once. */
    method DoRun(now: int, members: seq<SwimMember>, pick: nat, draws: seq<nat>)
      requires |members| > 0 ==> pick < |members|
      requires |draws| >= SwimOptions.FailureDetectionSubgroupSize
      modifies this, members, pingNode
      ensures now >= old(periodTimeout) ==>
        periodSequenceNumber == old(periodSequenceNumber) + 1
        && periodTimeout == now + SwimOptions.ProtocolPeriod
        && Picked(members, old(pingNode), pick, now)
      ensures now < old(periodTimeout) ==>
        periodSequenceNumber == old(periodSequenceNumber) && periodTimeout == old(periodTimeout)
        && pingNode == old(pingNode) && outbox == old(outbox)
        && (forall x :: x in members ==> x.State() == old(x.State()))
        && (old(pingAckTimeout).Some? && now >= old(pingAckTimeout).value ==> pingAckTimeout == None)
        && (old(pingAckTimeout).None? || now < old(pingAckTimeout).value ==> pingAckTimeout == old(pingAckTimeout))
    {
      if now >= periodTimeout {
        OnNewPeriod(now, members, pick);
      } else {
        CheckAckTimeout(now, members, draws);
      }
    }

    /** Within a period: once the Ack deadline has passed it is cleared and
        the indirect phase runs; members are not touched. */
    method CheckAckTimeout(now: int, members: seq<SwimMember>, draws: seq<nat>)
      requires |draws| >= SwimOptions.FailureDetectionSubgroupSize
      modifies this
      ensures periodSequenceNumber == old(periodSequenceNumber) && periodTimeout == old(periodTimeout)
      ensures pingNode == old(pingNode) && outbox == old(outbox)
      ensures old(pingAckTimeout).Some? && now >= old(pingAckTimeout).value ==> pingAckTimeout == None
      ensures old(pingAckTimeout).None? || now < old(pingAckTimeout).value ==> pingAckTimeout == old(pingAckTimeout)
    {
      if pingAckTimeout.Some? && now >= pingAckTimeout.value {
        pingAckTimeout := None;
        OnPingTimeout(members, draws);
      }
    }

    /** The outcome of a new period at `now` whose previous target was
        `prev`: with no members there is no target; otherwise
        `members[pick]` is Confirming until the period ends (after the
        previous target, which may be the same member, was made Suspicious),
        its Ack is due PingAckTimeout from now and a ping went out to it;
        every other member is unchanged. */
    twostate predicate Picked(members: seq<SwimMember>, prev: SwimMember?, pick: nat, now: int)
      reads this, members, prev
    {
      (prev != null && prev !in members ==> prev.State() == Suspected(old(prev.State()), prev.notifies))
      && (|members| == 0 ==>
        pingNode == null && pingAckTimeout == None && outbox == old(outbox))
      && (|members| > 0 ==>
        (pick < |members|
         && pingNode == members[pick]
         && members[pick].State()
              == Confirmed(if members[pick] == prev then Suspected(old(prev.State()), prev.notifies)
                           else old(members[pick].State()),
                           periodTimeout, members[pick].notifies)
         && pingAckTimeout == Some(now + SwimOptions.PingAckTimeout)
         && outbox == old(outbox) + [SwimFailureDetectorModule.PingFor(periodSequenceNumber, members[pick].address.endPoint)]
         && (prev != null && prev != members[pick] ==> prev.State() == Suspected(old(prev.State()), prev.notifies))))
      && (forall x :: x in members && x != pingNode && x != prev ==> x.State() == old(x.State()))
    }

    /** The indirect phase.  The subgroup draw never fills the selection, so
        no PingReq is sent: the state is left as it was. */
    method OnPingTimeout(members: seq<SwimMember>, draws: seq<nat>)
      requires |draws| >= SwimOptions.FailureDetectionSubgroupSize
      modifies this
      ensures periodSequenceNumber == old(periodSequenceNumber) && periodTimeout == old(periodTimeout)
      ensures pingNode == old(pingNode) && pingAckTimeout == old(pingAckTimeout)
      ensures outbox == old(outbox)
    {
      var activeMembers := ActiveMembers(members);
      if |activeMembers| == 0 {
        return;
      }
      var remaining, selectedMembers := DrawSubgroup(activeMembers, SwimOptions.FailureDetectionSubgroupSize, draws);
      if pingNode == null {
        return;
      }
      var targetNodeAddress := IpEndPoint.AddressToString(pingNode.address.endPoint.address);
      var targetNodePort := pingNode.address.endPoint.port;
      SendPingReqs(selectedMembers, PingReqMessage("", periodSequenceNumber, targetNodeAddress, targetNodePort));
    }

    /** Sends the PingReq to each member of the subgroup. */
    method SendPingReqs(selected: seq<SwimMember>, p: PingReqMessage)
      modifies this
      ensures outbox == old(outbox) + seq(|selected|, k requires 0 <= k < |selected| =>
                                            Outgoing(SwimFailureDetectorModule.PingReqOnly(p), selected[k].address.endPoint))
      ensures periodSequenceNumber == old(periodSequenceNumber) && periodTimeout == old(periodTimeout)
      ensures pingNode == old(pingNode) && pingAckTimeout == old(pingAckTimeout)
    {
      var i := 0;
      while i < |selected|
        invariant 0 <= i <= |selected|
        invariant outbox == old(outbox) + seq(i, k requires 0 <= k < i =>
                                                Outgoing(SwimFailureDetectorModule.PingReqOnly(p), selected[k].address.endPoint))
        invariant periodSequenceNumber == old(periodSequenceNumber) && periodTimeout == old(periodTimeout)
        invariant pingNode == old(pingNode) && pingAckTimeout == old(pingAckTimeout)
      {
        outbox := outbox + [Outgoing(SwimFailureDetectorModule.PingReqOnly(p), selected[i].address.endPoint)];
        i := i + 1;
      }
    }

    /** The period ended: a target still Confirming becomes Suspicious, the
        next period starts and a new target is picked. */
    method OnNewPeriod(now: int, members: seq<SwimMember>, pick: nat)
      requires |members| > 0 ==> pick < |members|
      modifies this, members, pingNode
      ensures periodSequenceNumber == old(periodSequenceNumber) + 1
      ensures periodTimeout == now + SwimOptions.ProtocolPeriod
      ensures Picked(members, old(pingNode), pick, now)
    {
      if pingNode != null && pingNode.status == Confirming {
        pingNode.OnSuspicious();
      }
      AdvancePeriod(now);
      SelectMemberForPing(now, members, pick);
    }

    /** Picks `members[pick]` as this period's target. */
    method SelectMemberForPing(now: int, members: seq<SwimMember>, pick: nat)
      requires |members| > 0 ==> pick < |members|
      modifies this, members
      ensures periodSequenceNumber == old(periodSequenceNumber) && periodTimeout == old(periodTimeout)
      ensures |members| == 0 ==> pingNode == null && pingAckTimeout == None && outbox == old(outbox)
      ensures |members| > 0 ==>
        pingNode == members[pick]
        && members[pick].State() == Confirmed(old(members[pick].State()), periodTimeout, members[pick].notifies)
        && pingAckTimeout == Some(now + SwimOptions.PingAckTimeout)
        && outbox == old(outbox) + [SwimFailureDetectorModule.PingFor(periodSequenceNumber, members[pick].address.endPoint)]
      ensures forall x :: x in members && x != pingNode ==> x.State() == old(x.State())
    {
      if |members| == 0 {
        pingNode := null;
        pingAckTimeout := None;
        return;
      }
      var target := members[pick];
      pingNode := target;
      pingAckTimeout := Some(now + SwimOptions.PingAckTimeout);
      target.OnConfirming(periodTimeout);
      outbox := outbox + [SwimFailureDetectorModule.PingFor(periodSequenceNumber, target.address.endPoint)];
    }
  }
}
