/** A remote member as the SWIM failure detector sees it: its status
    (Active, Confirming while a ping is outstanding, Suspicious) and the
    guarded transitions between them. */
module SwimMembers {
  import opened Common
  import IpEndPoint

  /** `Faulted` is the status the newer failure detector declares through
      `OnFaulted`; the member class below defines that transition minimally. */
  datatype SwimMemberStatus = Active | Suspicious | Confirming | Faulted

  /** The part of a member that its transitions change, with the number of
      times the status-change callback has run. */
  datatype MemberState = MemberState(
    status: SwimMemberStatus,
    suspiciousTimeout: Option<int>,
    lastSeen: int,
    notified: nat)

  /** Sets the status and runs the callback once, when there is one. */
  function ChangeStatus(s: MemberState, newStatus: SwimMemberStatus, notifies: bool): (r: MemberState)
    ensures r.status == newStatus
  {
    s.(status := newStatus, notified := if notifies then s.notified + 1 else s.notified)
  }

  /** An Ack arrived at `now`: Confirming and Suspicious members become
      Active again; any other status ignores it. */
  function Activated(s: MemberState, now: int, notifies: bool): MemberState {
    if s.status == Confirming || s.status == Suspicious then
      ChangeStatus(s.(suspiciousTimeout := None, lastSeen := now), Active, notifies)
    else s
  }

  /** The member was picked as this period's ping target, with the period
      ending at `periodTimeout`. */
  function Confirmed(s: MemberState, periodTimeout: int, notifies: bool): MemberState {
    if s.status == Active || s.status == Suspicious then
      ChangeStatus(s.(suspiciousTimeout := Some(periodTimeout)), Confirming, notifies)
    else s
  }

  /** No Ack arrived within the period (older protocol loop). */
  function Suspected(s: MemberState, notifies: bool): MemberState {
    if s.status == Confirming then ChangeStatus(s, Suspicious, notifies) else s
  }

  /** No Ack arrived within the period (newer failure detector): any status
      but Faulted becomes Faulted; the detector only calls it on a Confirming
      target. */
  function MarkedFaulted(s: MemberState, notifies: bool): MemberState {
    if s.status != Faulted then ChangeStatus(s, Faulted, notifies) else s
  }

  /** One call on a member's transition interface. */
  datatype MemberCall = OnActive(now: int) | OnConfirming(periodTimeout: int) | OnSuspicious | OnFaulted

  function Step(s: MemberState, call: MemberCall, notifies: bool): MemberState {
    match call
    case OnActive(now) => Activated(s, now, notifies)
    case OnConfirming(t) => Confirmed(s, t, notifies)
    case OnSuspicious => Suspected(s, notifies)
    case OnFaulted => MarkedFaulted(s, notifies)
  }

  /** The state after the calls in order. */
  function Run(s: MemberState, calls: seq<MemberCall>, notifies: bool): MemberState
    decreases |calls|
  {
    if |calls| == 0 then s else Step(Run(s, calls[..|calls| - 1], notifies), calls[|calls| - 1], notifies)
  }

  /** Every call that changes the status runs the callback exactly once
      (when one was given); a call that leaves the status alone runs nothing. */
  lemma StepNotifiesOnChange(s: MemberState, call: MemberCall, notifies: bool)
    ensures var r := Step(s, call, notifies);
      r.notified == if notifies && r.status != s.status then s.notified + 1 else s.notified
  {
  }

  /** The transition guards: Active only from Confirming or Suspicious,
      Confirming only from Active or Suspicious, Suspicious only from
      Confirming. */
  lemma StepGuards(s: MemberState, call: MemberCall, notifies: bool)
    ensures var r := Step(s, call, notifies);
      (r.status != s.status && r.status == Active ==> s.status == Confirming || s.status == Suspicious)
      && (r.status != s.status && r.status == Confirming ==> s.status == Active || s.status == Suspicious)
      && (r.status != s.status && r.status == Suspicious ==> s.status == Confirming)
  {
  }

  /** A member that is not Suspicious can only become Suspicious after
      having been Confirming: there is no Active to Suspicious shortcut. */
  lemma {:induction false} SuspicionPassesThroughConfirming(s: MemberState, calls: seq<MemberCall>, notifies: bool)
    requires s.status != Suspicious
    requires Run(s, calls, notifies).status == Suspicious
    ensures exists k :: 0 <= k < |calls| && Run(s, calls[..k], notifies).status == Confirming
    decreases |calls|
  {
    var n := |calls|;
    assert n > 0;
    var p := Run(s, calls[..n - 1], notifies);
    if p.status == Suspicious {
      SuspicionPassesThroughConfirming(s, calls[..n - 1], notifies);
      var k :| 0 <= k < n - 1 && Run(s, calls[..n - 1][..k], notifies).status == Confirming;
      assert calls[..n - 1][..k] == calls[..k];
    } else {
      StepGuards(p, calls[n - 1], notifies);
      assert Run(s, calls[..n - 1], notifies).status == Confirming;
    }
  }

  /** Once Faulted, no transition leaves that status. */
  lemma {:induction false} FaultedIsFinal(s: MemberState, calls: seq<MemberCall>, notifies: bool)
    requires s.status == Faulted
    ensures Run(s, calls, notifies) == s
    decreases |calls|
  {
    if |calls| > 0 {
      FaultedIsFinal(s, calls[..|calls| - 1], notifies);
    }
  }

  // ---------------------------------------------------------------------
  // Queries over the member list

  /** The positions of `s` whose element satisfies `p`, in order (the
      `Where` and `SingleOrDefault` queries of the source). */
  function Where<T>(s: seq<T>, p: T -> bool): (r: seq<nat>)
    ensures |r| <= |s|
    ensures forall k :: 0 <= k < |r| ==> r[k] < |s| && p(s[r[k]])
    ensures forall i :: 0 <= i < |s| && p(s[i]) ==> i in r
    ensures forall a, b :: 0 <= a < b < |r| ==> r[a] < r[b]
    decreases |s|
  {
    if |s| == 0 then []
    else
      var rest := Where(s[..|s| - 1], p);
      if p(s[|s| - 1]) then rest + [|s| - 1] else rest
  }

  function IsActive(status: SwimMemberStatus): bool { status == Active }

  /** The member ids, in list order. */
  function Ids(members: seq<SwimMember>): seq<NodeId> {
    seq(|members|, i requires 0 <= i < |members| => members[i].id)
  }

  /** The member statuses, in list order. */
  function Statuses(members: seq<SwimMember>): (ss: seq<SwimMemberStatus>)
    reads members
    ensures |ss| == |members|
    ensures forall i :: 0 <= i < |members| ==> ss[i] == members[i].status
  {
    if |members| == 0 then [] else Statuses(members[..|members| - 1]) + [members[|members| - 1].status]
  }

  /** The members at the given positions. */
  function Pick(members: seq<SwimMember>, idx: seq<nat>): seq<SwimMember>
    requires forall k :: 0 <= k < |idx| ==> idx[k] < |members|
  {
    seq(|idx|, k requires 0 <= k < |idx| => members[idx[k]])
  }

  /** The Active members, in list order. */
  function ActiveMembers(members: seq<SwimMember>): (act: seq<SwimMember>)
    reads members
  {
    Pick(members, Where(Statuses(members), IsActive))
  }

  /** The Active members are exactly the members whose status is Active. */
  lemma ActiveMembersAreActive(members: seq<SwimMember>)
    ensures forall x :: x in ActiveMembers(members) ==> x in members && x.status == Active
    ensures forall x :: x in members && x.status == Active ==> x in ActiveMembers(members)
  {
    var idx := Where(Statuses(members), IsActive);
    var act := ActiveMembers(members);
    forall x | x in members && x.status == Active ensures x in act {
      var i :| 0 <= i < |members| && members[i] == x;
      assert IsActive(Statuses(members)[i]);
      var k :| 0 <= k < |idx| && idx[k] == i;
      assert act[k] == x;
    }
  }

  /** `Where` depends only on which elements satisfy the predicate. */
  lemma {:induction false} WhereSame<T>(s: seq<T>, t: seq<T>, p: T -> bool)
    requires |s| == |t|
    requires forall i :: 0 <= i < |s| ==> p(s[i]) == p(t[i])
    ensures Where(s, p) == Where(t, p)
    decreases |s|
  {
    if |s| > 0 {
      WhereSame(s[..|s| - 1], t[..|t| - 1], p);
    }
  }

  /** `SingleOrDefault` on the ids: none, the one member with `id`, or
      InvalidOperation when several members share it. */
  function SingleOrDefault(ids: seq<NodeId>, id: NodeId): (r: Result<Option<nat>>)
    ensures r.Ok? && r.value.None? <==> forall i :: 0 <= i < |ids| ==> ids[i] != id
    ensures r.Ok? && r.value.Some? ==>
      (r.value.value < |ids| && ids[r.value.value] == id
       && forall j :: 0 <= j < |ids| && j != r.value.value ==> ids[j] != id)
    ensures r.Err? <==> exists i, j :: 0 <= i < j < |ids| && ids[i] == id && ids[j] == id
    ensures r.Err? ==> r.error == InvalidOperation
  {
    var idx := Where(ids, x => x == id);
    if |idx| == 0 then Ok(None)
    else if |idx| == 1 then
      assert forall j :: 0 <= j < |ids| && j != idx[0] ==> ids[j] != id by {
        forall j | 0 <= j < |ids| && ids[j] == id ensures j == idx[0] {
          assert j in idx;
        }
      }
      Ok(Some(idx[0]))
    else
      assert ids[idx[0]] == id && ids[idx[1]] == id && idx[0] < idx[1];
      Err(InvalidOperation)
  }

  /** The subgroup draw of the indirect phase as the source writes it: up to
      `k` times a random member is removed from the local copy, but nothing
      is ever added to the selection, so it stays empty.  The `j`-th random
      choice `random.Next(n)` is `draws[j] % n`. */
  method DrawSubgroup(activeMembers: seq<SwimMember>, k: int, draws: seq<nat>)
    returns (remaining: seq<SwimMember>, selectedMembers: seq<SwimMember>)
    requires |draws| >= Max(k, 0)
    ensures selectedMembers == []
    ensures |remaining| == |activeMembers| - Min(Max(k, 0), |activeMembers|)
    ensures multiset(remaining) <= multiset(activeMembers)
  {
    remaining := activeMembers;
    selectedMembers := [];
    var i := k;
    while i > 0 && |remaining| > 0
      invariant i <= Max(k, 0)
      invariant |remaining| == |activeMembers| - (Max(k, 0) - Max(i, 0))
      invariant i > 0 || |remaining| == |activeMembers| - Min(Max(k, 0), |activeMembers|)
      invariant multiset(remaining) <= multiset(activeMembers)
      invariant selectedMembers == []
      decreases i
    {
      var j := Max(k, 0) - i;
      assert j < |draws| && j < |activeMembers| && |remaining| == |activeMembers| - j;
      var selectedMemberIndex := draws[j] % |remaining|;
      var selectedMember := remaining[selectedMemberIndex];
      assert remaining == remaining[..selectedMemberIndex] + [selectedMember] + remaining[selectedMemberIndex + 1..];
      remaining := remaining[..selectedMemberIndex] + remaining[selectedMemberIndex + 1..];
      i := i - 1;
    }
  }

  /** The subgroup draw as evidently intended: every member removed from the
      local copy joins the selection, so min(k, |activeMembers|) members are
      selected, and the selection with what remains is exactly the active
      members. */
  method DrawSubgroupFilled(activeMembers: seq<SwimMember>, k: int, draws: seq<nat>)
    returns (remaining: seq<SwimMember>, selectedMembers: seq<SwimMember>)
    requires |draws| >= Max(k, 0)
    ensures |selectedMembers| == Min(Max(k, 0), |activeMembers|)
    ensures multiset(remaining) + multiset(selectedMembers) == multiset(activeMembers)
  {
    remaining := activeMembers;
    selectedMembers := [];
    var i := k;
    while i > 0 && |remaining| > 0
      invariant i <= Max(k, 0)
      invariant |selectedMembers| == Max(k, 0) - Max(i, 0)
      invariant |remaining| == |activeMembers| - |selectedMembers|
      invariant i > 0 || |selectedMembers| == Min(Max(k, 0), |activeMembers|)
      invariant multiset(remaining) + multiset(selectedMembers) == multiset(activeMembers)
      decreases i
    {
      var j := Max(k, 0) - i;
      var selectedMemberIndex := draws[j] % |remaining|;
      var selectedMember := remaining[selectedMemberIndex];
      assert remaining == remaining[..selectedMemberIndex] + [selectedMember] + remaining[selectedMemberIndex + 1..];
      remaining := remaining[..selectedMemberIndex] + remaining[selectedMemberIndex + 1..];
      selectedMembers := selectedMembers + [selectedMember];
      i := i - 1;
    }
  }

  class SwimMember {
    const id: NodeId
    const incarnation: int
    const joined: int
    /** Whether a status-change callback was supplied. */
    const notifies: bool
    const address: IpEndPoint.IPEndPointAddress
    var status: SwimMemberStatus
    var suspiciousTimeout: Option<int>
    var lastSeen: int
    /** How many times the status-change callback has run. */
    var notified: nat

    function State(): MemberState
      reads this
    {
      MemberState(status, suspiciousTimeout, lastSeen, notified)
    }

    /** A new member was last seen when it joined. */
    constructor (id: NodeId, address: IpEndPoint.IPEndPointAddress, joined: int, incarnation: int,
                 status: SwimMemberStatus, notifies: bool)
      ensures this.id == id && this.address == address && this.incarnation == incarnation
      ensures this.joined == joined && this.notifies == notifies
      ensures State() == MemberState(status, None, joined, 0)
    {
      this.id := id;
      this.incarnation := incarnation;
      this.address := address;
      this.status := status;
      this.joined := joined;
      this.lastSeen := joined;
      this.notifies := notifies;
      suspiciousTimeout := None;
      notified := 0;
    }

    method ChangeStatusTo(newStatus: SwimMemberStatus)
      modifies this
      ensures State() == ChangeStatus(old(State()), newStatus, notifies)
    {
      status := newStatus;
      if notifies {
        notified := notified + 1;
      }
    }

    method OnActive(now: int)
      modifies this
      ensures State() == Activated(old(State()), now, notifies)
    {
      if status == Confirming || status == Suspicious {
        suspiciousTimeout := None;
        lastSeen := now;
        ChangeStatusTo(Active);
      }
    }

    method OnConfirming(periodTimeout: int)
      modifies this
      ensures State() == Confirmed(old(State()), periodTimeout, notifies)
    {
      if status == Active || status == Suspicious {
        suspiciousTimeout := Some(periodTimeout);
        ChangeStatusTo(Confirming);
      }
    }

    method OnSuspicious()
      modifies this
      ensures State() == Suspected(old(State()), notifies)
    {
      if status == Confirming {
        ChangeStatusTo(Suspicious);
      }
    }

    /** Not defined by the member class of the source; called by the newer
        failure detector on a target still Confirming at the end of its
        period.  Any status but Faulted becomes Faulted. */
    method OnFaulted()
      modifies this
      ensures State() == MarkedFaulted(old(State()), notifies)
    {
      if status != Faulted {
        ChangeStatusTo(Faulted);
      }
    }
  }
}
