/** The newer SWIM failure detector.  Each protocol period it pings one
    randomly chosen Active member; a target that has not answered by the end
    of the period is declared Faulted.  Ticks of its timer, the clock and the
    random choices are parameters of the methods. */
module SwimFailureDetectorModule {
  import opened Common
  import opened SwimMessages
  import opened SwimMembers
  import SwimOptions
  import IpEndPoint

  function PingReqOnly(p: PingReqMessage): NodeMessage {
    NodeMessage(None, None, None, Some(p), None, None)
  }

  /** The ping sent to the target of period `psn` (the sender id is left
      empty by the source). */
  function PingFor(psn: int, target: IpEndPoint.IPEndPoint): Outgoing {
    Outgoing(PingOnly(PingMessage("", psn)), target)
  }

  /** A target that answers within its period is Active again afterwards,
      so the next period does not fault it. */
  lemma AnsweredTargetStaysActive(s: MemberState, periodTimeout: int, now: int, notifies: bool)
    requires s.status == Active
    ensures var r := Run(s, [OnConfirming(periodTimeout), OnActive(now)], notifies);
      r.status == Active && r.lastSeen == now && r.suspiciousTimeout == None
  {
    var calls := [OnConfirming(periodTimeout), OnActive(now)];
    assert calls[..1] == [OnConfirming(periodTimeout)] && calls[..1][..0] == [];
    assert Run(s, calls[..1], notifies) == Confirmed(s, periodTimeout, notifies);
  }

  /** A target that never answers is still Confirming when the period ends,
      and is then Faulted. */
  lemma SilentTargetIsFaulted(s: MemberState, periodTimeout: int, notifies: bool)
    requires s.status == Active
    ensures Run(s, [OnConfirming(periodTimeout)], notifies).status == Confirming
    ensures Run(s, [OnConfirming(periodTimeout), OnFaulted], notifies).status == SwimMemberStatus.Faulted
  {
    var calls := [OnConfirming(periodTimeout), OnFaulted];
    assert calls[..1] == [OnConfirming(periodTimeout)] && calls[..1][..0] == [];
    assert Run(s, calls[..1], notifies) == Confirmed(s, periodTimeout, notifies);
  }

  class SwimFailureDetector {
    var periodSequenceNumber: int
    /** The time the current protocol period ends. */
    var periodTimeout: int
    /** The member pinged in this period, if any. */
    var pingNode: SwimMember?
    /** When the Ack to the direct ping is due; cleared once it passed. */
    var pingAckTimeout: Option<int>
    /** Messages handed to the transport, in order. */
    var outbox: seq<Outgoing>

    /** The detector starts in period 1, with no target. */
    constructor (now: int)
      ensures periodSequenceNumber == 1 && periodTimeout == now + SwimOptions.ProtocolPeriod
      ensures pingNode == null && pingAckTimeout == None && outbox == []
    {
      periodSequenceNumber := 0;
      pingNode := null;
      pingAckTimeout := None;
      outbox := [];
      periodTimeout := now;
      new;
      AdvancePeriod(now);
    }

    method AdvancePeriod(now: int)
      modifies this
      ensures periodTimeout == now + SwimOptions.ProtocolPeriod
      ensures periodSequenceNumber == old(periodSequenceNumber) + 1
      ensures pingNode == old(pingNode) && pingAckTimeout == old(pingAckTimeout) && outbox == old(outbox)
    {
      periodTimeout := now + SwimOptions.ProtocolPeriod;
      periodSequenceNumber := periodSequenceNumber + 1;
    }

    /** One timer tick at `now`: a period that has ended starts the next one;
        otherwise an Ack deadline that has passed starts the indirect phase,
        once.  `pick` and `draws` are the random choices of the tick. */
    method DoRun(now: int, members: seq<SwimMember>, pick: nat, draws: seq<nat>)
      requires |ActiveMembers(members)| > 0 ==> pick < |ActiveMembers(members)|
      requires |draws| >= SwimOptions.FailureDetectionSubgroupSize
      modifies this, members, pingNode
      ensures now >= old(periodTimeout) ==>
        periodSequenceNumber == old(periodSequenceNumber) + 1
        && periodTimeout == now + SwimOptions.ProtocolPeriod
        && (old(pingNode) != null && old(pingNode.status) == Confirming ==>
              old(pingNode).State() == MarkedFaulted(old(pingNode.State()), old(pingNode).notifies))
        && SelectedFrom(old(ActiveMembers(members)), pick, now)
      ensures now < old(periodTimeout) ==>
        periodSequenceNumber == old(periodSequenceNumber) && periodTimeout == old(periodTimeout)
        && pingNode == old(pingNode) && outbox == old(outbox)
        && (forall x :: x in members ==> x.State() == old(x.State()))
        && (old(pingAckTimeout).Some? && now >= old(pingAckTimeout).value ==> pingAckTimeout == None)
        && (old(pingAckTimeout).None? || now < old(pingAckTimeout).value ==> pingAckTimeout == old(pingAckTimeout))
    {
      if now >= periodTimeout {
        OnNewPeriod(now, members, pick);
      } else {
        CheckAckTimeout(now, members, draws);
      }
    }

    /** Within a period: once the Ack deadline has passed it is cleared and
        the indirect phase runs; members are not touched. */
    method CheckAckTimeout(now: int, members: seq<SwimMember>, draws: seq<nat>)
      requires |draws| >= SwimOptions.FailureDetectionSubgroupSize
      modifies this
      ensures periodSequenceNumber == old(periodSequenceNumber) && periodTimeout == old(periodTimeout)
      ensures pingNode == old(pingNode) && outbox == old(outbox)
      ensures old(pingAckTimeout).Some? && now >= old(pingAckTimeout).value ==> pingAckTimeout == None
      ensures old(pingAckTimeout).None? || now < old(pingAckTimeout).value ==> pingAckTimeout == old(pingAckTimeout)
    {
      if pingAckTimeout.Some? && now >= pingAckTimeout.value {
        pingAckTimeout := None;
        OnPingTimeout(members, draws);
      }
    }

    /** The result of picking the `pick`-th of the Active members `act` at
        `now`: no target when there are none; otherwise that member is
        Confirming until the period ends, its Ack is due PingAckTimeout from
        now, a ping went out to it, and every other member is unchanged. */
    twostate predicate SelectedFrom(act: seq<SwimMember>, pick: nat, now: int)
      reads this, act
    {
      (|act| == 0 ==>
        pingNode == null && pingAckTimeout == None && outbox == old(outbox))
      && (|act| > 0 ==>
        (pick < |act|
         && pingNode == act[pick]
         && act[pick].State() == Confirmed(old(act[pick].State()), periodTimeout, act[pick].notifies)
         && pingAckTimeout == Some(now + SwimOptions.PingAckTimeout)
         && outbox == old(outbox) + [PingFor(periodSequenceNumber, act[pick].address.endPoint)]))
    }

    /** The indirect phase.  The subgroup draw never fills the selection, so
        no PingReq is sent: the state is left as it was. */
    method OnPingTimeout(members: seq<SwimMember>, draws: seq<nat>)
      requires |draws| >= SwimOptions.FailureDetectionSubgroupSize
      modifies this
      ensures periodSequenceNumber == old(periodSequenceNumber) && periodTimeout == old(periodTimeout)
      ensures pingNode == old(pingNode) && pingAckTimeout == old(pingAckTimeout)
      ensures outbox == old(outbox)
    {
      var activeMembers := ActiveMembers(members);
      if |activeMembers| == 0 {
        return;
      }
      var remaining, selectedMembers := DrawSubgroup(activeMembers, SwimOptions.FailureDetectionSubgroupSize, draws);
      if pingNode == null {
        return;
      }
      var targetNodeAddress := IpEndPoint.ToString(pingNode.address);
      SendPingReqs(selectedMembers, PingReqMessage("", periodSequenceNumber, targetNodeAddress, 0));
    }

    /** Sends the PingReq to each member of the subgroup. */
    method SendPingReqs(selected: seq<SwimMember>, p: PingReqMessage)
      modifies this
      ensures outbox == old(outbox) + seq(|selected|, k requires 0 <= k < |selected| =>
                                            Outgoing(PingReqOnly(p), selected[k].address.endPoint))
      ensures periodSequenceNumber == old(periodSequenceNumber) && periodTimeout == old(periodTimeout)
      ensures pingNode == old(pingNode) && pingAckTimeout == old(pingAckTimeout)
    {
      var i := 0;
      while i < |selected|
        invariant 0 <= i <= |selected|
        invariant outbox == old(outbox) + seq(i, k requires 0 <= k < i =>
                                                Outgoing(PingReqOnly(p), selected[k].address.endPoint))
        invariant periodSequenceNumber == old(periodSequenceNumber) && periodTimeout == old(periodTimeout)
        invariant pingNode == old(pingNode) && pingAckTimeout == old(pingAckTimeout)
      {
        outbox := outbox + [Outgoing(PingReqOnly(p), selected[i].address.endPoint)];
        i := i + 1;
      }
    }

    /** The period ended: a target still Confirming is declared Faulted, the
        next period starts and a new target is picked among the members that
        were Active. */
    method OnNewPeriod(now: int, members: seq<SwimMember>, pick: nat)
      requires |ActiveMembers(members)| > 0 ==> pick < |ActiveMembers(members)|
      modifies this, members, pingNode
      ensures periodSequenceNumber == old(periodSequenceNumber) + 1
      ensures periodTimeout == now + SwimOptions.ProtocolPeriod
      ensures old(pingNode) != null && old(pingNode.status) == Confirming ==>
        old(pingNode).State() == MarkedFaulted(old(pingNode.State()), old(pingNode).notifies)
      ensures old(pingNode) != null && old(pingNode.status) != Confirming && old(pingNode) != pingNode ==>
        old(pingNode).State() == old(pingNode.State())
      ensures SelectedFrom(old(ActiveMembers(members)), pick, now)
      ensures forall x :: x in members && x != pingNode && x != old(pingNode) ==> x.State() == old(x.State())
    {
      DeclareFaulted(members);
      AdvancePeriod(now);
      SelectMemberForPing(now, members, pick);
    }

    /** Declares the target Faulted when it is still Confirming; the Active
        members stay the same, since neither status is Active. */
    method DeclareFaulted(members: seq<SwimMember>)
      modifies pingNode
      ensures pingNode != null && old(pingNode.status) == Confirming ==>
        pingNode.State() == MarkedFaulted(old(pingNode.State()), pingNode.notifies)
      ensures pingNode != null && old(pingNode.status) != Confirming ==> pingNode.State() == old(pingNode.State())
      ensures ActiveMembers(members) == old(ActiveMembers(members))
      ensures forall x :: x in members && x != pingNode ==> x.State() == old(x.State())
    {
      ghost var ss := Statuses(members);
      if pingNode != null && pingNode.status == Confirming {
        pingNode.OnFaulted();
      }
      assert forall i :: 0 <= i < |members| ==> IsActive(ss[i]) == IsActive(Statuses(members)[i]);
      WhereSame(ss, Statuses(members), IsActive);
    }

    /** Picks the `pick`-th Active member as this period's target. */
    method SelectMemberForPing(now: int, members: seq<SwimMember>, pick: nat)
      requires |ActiveMembers(members)| > 0 ==> pick < |ActiveMembers(members)|
      modifies this, members
      ensures periodSequenceNumber == old(periodSequenceNumber) && periodTimeout == old(periodTimeout)
      ensures SelectedFrom(old(ActiveMembers(members)), pick, now)
      ensures forall x :: x in members && x != pingNode ==> x.State() == old(x.State())
    {
      var activeMembers := ActiveMembers(members);
      if |activeMembers| == 0 {
        pingNode := null;
        pingAckTimeout := None;
        return;
      }
      var target := activeMembers[pick];
      pingNode := target;
      pingAckTimeout := Some(now + SwimOptions.PingAckTimeout);
      target.OnConfirming(periodTimeout);
      outbox := outbox + [PingFor(periodSequenceNumber, target.address.endPoint)];
    }

    /** An Ack from `m.nodeId`: the one member with that id becomes Active
        again if the Ack is for the current period; a stale Ack or an
        unknown id changes nothing, and an id shared by several members is
        an InvalidOperation. */
    method OnPingAckArrived(m: AckMessage, now: int, members: seq<SwimMember>) returns (o: Outcome)
      modifies members
      ensures var found := SingleOrDefault(Ids(members), m.nodeId);
        (found.Err? ==> o == Failed(InvalidOperation))
        && (found.Ok? ==> o == Done)
        && (found.Ok? && found.value.Some? && m.periodSequenceNumber == periodSequenceNumber ==>
              members[found.value.value].State()
                == Activated(old(members[found.value.value].State()), now, members[found.value.value].notifies))
        && (forall x :: x in members && x.State() != old(x.State()) ==>
              found.Ok? && found.value.Some? && m.periodSequenceNumber == periodSequenceNumber
              && x == members[found.value.value])
    {
      var found := SingleOrDefault(Ids(members), m.nodeId);
      if found.Err? {
        return Failed(found.error);
      }
      o := Done;
      if found.value.Some? {
        var node := members[found.value.value];
        if periodSequenceNumber == m.periodSequenceNumber {
          node.OnActive(now);
        }
      }
    }
  }
}
