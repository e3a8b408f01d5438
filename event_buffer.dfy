/** The bounded buffer of gossip events (SWIM's infection-style
    dissemination).  It keeps at most one event per node, drops events it
    has already seen, evicts the most piggybacked event when full, and
    hands out the least piggybacked events first.  Two versions exist;
    they differ only in how `GetNextEvents` breaks a tie on the use count. */
module EventBuffer {
  import opened Common
  import opened SwimMessages

  /** A stored event and how many outgoing messages have carried it. */
  datatype BufferItem = BufferItem(memberEvent: MembershipEvent, usedCount: int)

  /** A new item: the event, not yet carried by any message. */
  function NewItem(e: MembershipEvent): BufferItem {
    BufferItem(e, 0)
  }

  predicate OneEventPerNode(items: seq<BufferItem>) {
    forall i, j :: 0 <= i < j < |items| ==> items[i].memberEvent.nodeId != items[j].memberEvent.nodeId
  }

  predicate DistinctEvents(items: seq<BufferItem>) {
    forall i, j :: 0 <= i < j < |items| ==> items[i].memberEvent.eventId != items[j].memberEvent.eventId
  }

  /** What every buffer of the given capacity satisfies between calls. */
  predicate BufferValid(items: seq<BufferItem>, capacity: int) {
    0 <= capacity && |items| <= Max(capacity - 1, 0) && OneEventPerNode(items) && DistinctEvents(items)
  }

  /** Whether an equal event (same event id) is stored. */
  predicate HasEvent(items: seq<BufferItem>, eventId: int) {
    exists i :: 0 <= i < |items| && items[i].memberEvent.eventId == eventId
  }

  /** The first position holding an event for `nodeId`, or -1. */
  function NodeIndex(items: seq<BufferItem>, nodeId: NodeId): (r: int)
    ensures -1 <= r < |items|
    ensures r == -1 ==> forall j :: 0 <= j < |items| ==> items[j].memberEvent.nodeId != nodeId
    ensures r != -1 ==> (items[r].memberEvent.nodeId == nodeId
                         && forall j :: 0 <= j < r ==> items[j].memberEvent.nodeId != nodeId)
    decreases |items|
  {
    if |items| == 0 then -1
    else if items[0].memberEvent.nodeId == nodeId then 0
    else
      var r := NodeIndex(items[1..], nodeId);
      if r == -1 then -1 else r + 1
  }

  /** `a` is a better eviction victim than `b`: used more often, or as often
      but strictly older. */
  predicate Outranks(a: BufferItem, b: BufferItem) {
    a.usedCount > b.usedCount
    || (a.usedCount == b.usedCount && a.memberEvent.timestamp < b.memberEvent.timestamp)
  }

  /** Position `m` is the victim: it outranks every earlier item and no later
      item outranks it (the first of the most used, oldest items). */
  predicate IsVictim(items: seq<BufferItem>, m: int) {
    0 <= m < |items|
    && (forall j :: 0 <= j < m ==> Outranks(items[m], items[j]))
    && (forall j :: m < j < |items| ==> !Outranks(items[j], items[m]))
  }

  /** The victim of the eviction scan, or -1 for an empty buffer. */
  function Victim(items: seq<BufferItem>): (m: int)
    ensures |items| == 0 <==> m == -1
    ensures |items| > 0 ==> IsVictim(items, m)
    decreases |items|
  {
    if |items| == 0 then -1
    else
      var p := Victim(items[..|items| - 1]);
      if p == -1 || Outranks(items[|items| - 1], items[p]) then |items| - 1 else p
  }

  /** At most one position is the victim. */
  lemma VictimUnique(items: seq<BufferItem>, m: int)
    requires IsVictim(items, m)
    ensures forall n :: 0 <= n < |items| && n != m ==> !IsVictim(items, n)
  {
    forall n | 0 <= n < |items| && n != m ensures !IsVictim(items, n) {
      if n < m {
        assert Outranks(items[m], items[n]);
      } else {
        assert !Outranks(items[n], items[m]);
      }
    }
  }

  /** The scan over the items that remembers the most used, oldest item
      seen so far. */
  method MostUsedIndex(items: seq<BufferItem>) returns (maxIndex: int)
    ensures maxIndex == Victim(items)
    ensures |items| == 0 <==> maxIndex == -1
    ensures |items| > 0 ==> IsVictim(items, maxIndex)
  {
    maxIndex := -1;
    var i := 0;
    while i < |items|
      invariant 0 <= i <= |items|
      invariant maxIndex == Victim(items[..i])
    {
      assert items[..i + 1][..i] == items[..i];
      if maxIndex == -1 || Outranks(items[i], items[maxIndex]) {
        maxIndex := i;
      }
      i := i + 1;
    }
    assert items[..i] == items;
  }

  /** The effect of `Add`: whether the event was new, and the new items. */
  datatype Added = Added(accepted: bool, items: seq<BufferItem>)

  /** `Add(e)` on a buffer whose list was created with `capacity`.  The only
      failure is the eviction scan finding nothing, which writes at index
      -1 (capacity at most 1). */
  function AddEvent(items: seq<BufferItem>, capacity: int, e: MembershipEvent): Result<Added> {
    if HasEvent(items, e.eventId) then Ok(Added(false, items))
    else
      var k := NodeIndex(items, e.nodeId);
      if k != -1 then
        if items[k].memberEvent.timestamp < e.timestamp then Ok(Added(true, items[k := NewItem(e)]))
        else Ok(Added(false, items))
      else if |items| + 1 < capacity then Ok(Added(true, items + [NewItem(e)]))
      else
        var m := Victim(items);
        if m == -1 then Err(ArgumentOutOfRange) else Ok(Added(true, items[m := NewItem(e)]))
  }

  /** An event seen before (equal event id) is refused and nothing changes. */
  lemma AddDropsDuplicates(items: seq<BufferItem>, capacity: int, e: MembershipEvent)
    requires HasEvent(items, e.eventId)
    ensures AddEvent(items, capacity, e) == Ok(Added(false, items))
  {
  }

  /** An unseen event for a node already in the buffer replaces that node's
      event in place exactly when it is strictly newer; otherwise nothing
      changes and the event is refused. */
  lemma AddReplacesOnlyNewer(items: seq<BufferItem>, capacity: int, e: MembershipEvent, k: int)
    requires !HasEvent(items, e.eventId)
    requires 0 <= k < |items| && items[k].memberEvent.nodeId == e.nodeId
    requires OneEventPerNode(items)
    ensures var r := AddEvent(items, capacity, e);
      r.Ok? && (r.value.accepted <==> items[k].memberEvent.timestamp < e.timestamp)
      && r.value.items == (if r.value.accepted then items[k := NewItem(e)] else items)
  {
    var n := NodeIndex(items, e.nodeId);
    assert items[n].memberEvent.nodeId == items[k].memberEvent.nodeId;
  }

  /** An event for a node not in the buffer is appended while there is
      room, and otherwise overwrites the victim of the eviction scan. */
  lemma AddNewNode(items: seq<BufferItem>, capacity: int, e: MembershipEvent)
    requires !HasEvent(items, e.eventId)
    requires forall j :: 0 <= j < |items| ==> items[j].memberEvent.nodeId != e.nodeId
    requires |items| > 0 || |items| + 1 < capacity
    ensures var r := AddEvent(items, capacity, e);
      r.Ok? && r.value.accepted
      && (|items| + 1 < capacity ==> r.value.items == items + [NewItem(e)])
      && (|items| + 1 >= capacity ==> exists m :: IsVictim(items, m) && r.value.items == items[m := NewItem(e)])
  {
  }

  /** On a valid buffer, `Add` fails exactly when the capacity is at most 1
      and the event is new: such a buffer is always empty, so every new
      event reaches the eviction scan with nothing to evict. */
  lemma AddFailsOnlyForTinyCapacity(items: seq<BufferItem>, capacity: int, e: MembershipEvent)
    requires BufferValid(items, capacity)
    ensures AddEvent(items, capacity, e).Err? <==> capacity <= 1
    ensures AddEvent(items, capacity, e).Err? ==> AddEvent(items, capacity, e).error == ArgumentOutOfRange
  {
    if capacity <= 1 {
      assert |items| == 0;
      assert !HasEvent(items, e.eventId);
    }
  }

  /** `Add` keeps the buffer valid: one event per node, no repeated event,
      and at most capacity - 1 items. */
  lemma AddKeepsValid(items: seq<BufferItem>, capacity: int, e: MembershipEvent)
    requires BufferValid(items, capacity)
    requires AddEvent(items, capacity, e).Ok?
    ensures BufferValid(AddEvent(items, capacity, e).value.items, capacity)
  {
    var t := AddEvent(items, capacity, e).value.items;
    if !HasEvent(items, e.eventId) {
      var k := NodeIndex(items, e.nodeId);
      if k != -1 {
        if items[k].memberEvent.timestamp < e.timestamp {
          assert t == items[k := NewItem(e)];
          assert OneEventPerNode(t) by {
            forall i, j | 0 <= i < j < |t|
              ensures t[i].memberEvent.nodeId != t[j].memberEvent.nodeId
            {
              assert t[i].memberEvent.nodeId == items[i].memberEvent.nodeId;
              assert t[j].memberEvent.nodeId == items[j].memberEvent.nodeId;
            }
          }
          assert DistinctEvents(t) by {
            forall i, j | 0 <= i < j < |t|
              ensures t[i].memberEvent.eventId != t[j].memberEvent.eventId
            {
              if i == k {
                assert t[j] == items[j];
              } else if j == k {
                assert t[i] == items[i];
              }
            }
          }
        }
      } else if |items| + 1 < capacity {
        assert t == items + [NewItem(e)];
        assert OneEventPerNode(t) by {
          forall i, j | 0 <= i < j < |t|
            ensures t[i].memberEvent.nodeId != t[j].memberEvent.nodeId
          {
            assert t[i] == items[i];
          }
        }
        assert DistinctEvents(t) by {
          forall i, j | 0 <= i < j < |t|
            ensures t[i].memberEvent.eventId != t[j].memberEvent.eventId
          {
            assert t[i] == items[i];
          }
        }
      } else {
        var m := Victim(items);
        assert t == items[m := NewItem(e)];
        assert OneEventPerNode(t) by {
          forall i, j | 0 <= i < j < |t|
            ensures t[i].memberEvent.nodeId != t[j].memberEvent.nodeId
          {
            if i == m {
              assert t[j] == items[j];
            } else if j == m {
              assert t[i] == items[i];
            }
          }
        }
        assert DistinctEvents(t) by {
          forall i, j | 0 <= i < j < |t|
            ensures t[i].memberEvent.eventId != t[j].memberEvent.eventId
          {
            if i == m {
              assert t[j] == items[j];
            } else if j == m {
              assert t[i] == items[i];
            }
          }
        }
      }
    }
  }

  /** An accepted event is stored, unused so far. */
  lemma AcceptedEventIsStored(items: seq<BufferItem>, capacity: int, e: MembershipEvent)
    requires AddEvent(items, capacity, e).Ok? && AddEvent(items, capacity, e).value.accepted
    ensures exists i :: (0 <= i < |AddEvent(items, capacity, e).value.items|
                         && AddEvent(items, capacity, e).value.items[i] == NewItem(e))
  {
    var t := AddEvent(items, capacity, e).value.items;
    var k := NodeIndex(items, e.nodeId);
    if k != -1 {
      assert t[k] == NewItem(e);
    } else if |items| + 1 < capacity {
      assert t[|items|] == NewItem(e);
    } else {
      assert t[Victim(items)] == NewItem(e);
    }
  }

  // ---------------------------------------------------------------------
  // Selection of the next events to piggyback

  /** Item `i` comes before item `j` in `GetNextEvents`: fewer uses first,
      then by timestamp (newer first when `newerFirst`, older first
      otherwise), then by position, since the ordering is stable. */
  predicate Before(items: seq<BufferItem>, i: int, j: int, newerFirst: bool) {
    0 <= i < |items| && 0 <= j < |items|
    && (items[i].usedCount < items[j].usedCount
        || (items[i].usedCount == items[j].usedCount
            && (if newerFirst then items[i].memberEvent.timestamp > items[j].memberEvent.timestamp
                else items[i].memberEvent.timestamp < items[j].memberEvent.timestamp))
        || (items[i].usedCount == items[j].usedCount
            && items[i].memberEvent.timestamp == items[j].memberEvent.timestamp && i < j))
  }

  predicate Ordered(items: seq<BufferItem>, s: seq<nat>, newerFirst: bool) {
    forall a, b :: 0 <= a < b < |s| ==> Before(items, s[a], s[b], newerFirst)
  }

  function Insert(items: seq<BufferItem>, x: nat, s: seq<nat>, newerFirst: bool): seq<nat>
    decreases |s|
  {
    if |s| == 0 then [x]
    else if Before(items, x, s[0], newerFirst) then [x] + s
    else [s[0]] + Insert(items, x, s[1..], newerFirst)
  }

  /** The positions 0 .. k-1 in selection order. */
  function Sort(items: seq<BufferItem>, k: nat, newerFirst: bool): seq<nat> {
    if k == 0 then [] else Insert(items, k - 1, Sort(items, k - 1, newerFirst), newerFirst)
  }

  lemma {:induction false} InsertOrdered(items: seq<BufferItem>, x: nat, s: seq<nat>, newerFirst: bool)
    requires x < |items| && x !in s
    requires forall y :: y in s ==> y < |items|
    requires Ordered(items, s, newerFirst)
    ensures |Insert(items, x, s, newerFirst)| == |s| + 1
    ensures forall y :: y in Insert(items, x, s, newerFirst) <==> y == x || y in s
    ensures Ordered(items, Insert(items, x, s, newerFirst), newerFirst)
    decreases |s|
  {
    var r := Insert(items, x, s, newerFirst);
    if |s| == 0 {
    } else if Before(items, x, s[0], newerFirst) {
      assert r == [x] + s;
      forall a, b | 0 <= a < b < |r| ensures Before(items, r[a], r[b], newerFirst) {
        if a == 0 && b > 1 {
          assert Before(items, s[0], s[b - 1], newerFirst);
        }
      }
    } else {
      var t := Insert(items, x, s[1..], newerFirst);
      assert r == [s[0]] + t;
      assert Ordered(items, s[1..], newerFirst) by {
        forall a, b | 0 <= a < b < |s[1..]| ensures Before(items, s[1..][a], s[1..][b], newerFirst) {
          assert Before(items, s[a + 1], s[b + 1], newerFirst);
        }
      }
      InsertOrdered(items, x, s[1..], newerFirst);
      assert s[0] in s;
      assert Before(items, s[0], x, newerFirst);
      forall a, b | 0 <= a < b < |r| ensures Before(items, r[a], r[b], newerFirst) {
        if a == 0 {
          assert r[b] == t[b - 1];
          assert r[b] in t;
          if r[b] != x {
            assert r[b] in s[1..];
            var c :| 0 <= c < |s[1..]| && s[1..][c] == r[b];
            assert Before(items, s[0], s[c + 1], newerFirst);
          }
        } else {
          assert r[a] == t[a - 1] && r[b] == t[b - 1];
        }
      }
      forall y ensures y in r <==> y == x || y in s {
        if y in s && y != s[0] {
          var c :| 0 <= c < |s| && s[c] == y;
          assert s[1..][c - 1] == y;
        }
      }
    }
  }

  /** The selection order lists every position exactly once, in `Before`
      order: it is the stable sort of the buffer by the ordering keys. */
  lemma {:induction false} SortIsOrderedPermutation(items: seq<BufferItem>, k: nat, newerFirst: bool)
    requires k <= |items|
    ensures |Sort(items, k, newerFirst)| == k
    ensures forall y :: y in Sort(items, k, newerFirst) <==> 0 <= y < k
    ensures Ordered(items, Sort(items, k, newerFirst), newerFirst)
  {
    if k > 0 {
      SortIsOrderedPermutation(items, k - 1, newerFirst);
      InsertOrdered(items, k - 1, Sort(items, k - 1, newerFirst), newerFirst);
    }
  }

  /** The positions `GetNextEvents(top)` picks: `Take(top)` of the order. */
  function Selected(items: seq<BufferItem>, top: int, newerFirst: bool): seq<nat> {
    var order := Sort(items, |items|, newerFirst);
    if top <= 0 then [] else if top < |order| then order[..top] else order
  }

  /** The events at the picked positions, in order. */
  function Picked(items: seq<BufferItem>, sel: seq<nat>): seq<MembershipEvent>
    requires forall k :: 0 <= k < |sel| ==> sel[k] < |items|
  {
    seq(|sel|, k requires 0 <= k < |sel| => items[sel[k]].memberEvent)
  }

  /** The items with the use count of each picked position raised by one. */
  function Bumped(items: seq<BufferItem>, sel: seq<nat>): seq<BufferItem> {
    seq(|items|, i requires 0 <= i < |items| =>
      if i in sel then items[i].(usedCount := items[i].usedCount + 1) else items[i])
  }

  /** `GetNextEvents(top)` picks min(top, Count) distinct positions (none for
      a negative `top`), in selection order, and every picked item comes
      before every item left out: the least used events go first. */
  lemma SelectedAreLeastUsed(items: seq<BufferItem>, top: int, newerFirst: bool)
    ensures var sel := Selected(items, top, newerFirst);
      |sel| == Min(Max(top, 0), |items|)
      && (forall k :: 0 <= k < |sel| ==> sel[k] < |items|)
      && Ordered(items, sel, newerFirst)
      && (forall i, j :: i in sel && 0 <= j < |items| && j !in sel ==> Before(items, i, j, newerFirst))
  {
    var order := Sort(items, |items|, newerFirst);
    SortIsOrderedPermutation(items, |items|, newerFirst);
    var sel := Selected(items, top, newerFirst);
    var m := |sel|;
    assert sel == order[..m];
    forall k | 0 <= k < m ensures sel[k] < |items| {
      assert order[k] in order;
    }
    forall i, j | i in sel && 0 <= j < |items| && j !in sel ensures Before(items, i, j, newerFirst) {
      var a :| 0 <= a < m && sel[a] == i;
      assert j in order;
      var b :| 0 <= b < |order| && order[b] == j;
      assert forall c :: 0 <= c < m ==> order[c] == sel[c] && sel[c] != j;
      assert Before(items, order[a], order[b], newerFirst);
    }
  }

  /** Distinct positions in selection order. */
  lemma OrderedIsDistinct(items: seq<BufferItem>, s: seq<nat>, newerFirst: bool)
    requires Ordered(items, s, newerFirst)
    ensures forall a, b :: 0 <= a < b < |s| ==> s[a] != s[b]
  {
  }

  /** The increment loop of `GetNextEvents`: raises the use count of each
      picked item once. */
  method BumpAll(items: seq<BufferItem>, sel: seq<nat>) returns (r: seq<BufferItem>)
    requires forall k :: 0 <= k < |sel| ==> sel[k] < |items|
    requires forall a, b :: 0 <= a < b < |sel| ==> sel[a] != sel[b]
    ensures r == Bumped(items, sel)
    ensures |r| == |items|
    ensures forall i :: 0 <= i < |items| ==>
      (r[i].memberEvent == items[i].memberEvent
       && r[i].usedCount == (if i in sel then items[i].usedCount + 1 else items[i].usedCount))
  {
    r := items;
    var k := 0;
    while k < |sel|
      invariant 0 <= k <= |sel|
      invariant r == Bumped(items, sel[..k])
    {
      var i := sel[k];
      assert forall c :: 0 <= c < k ==> sel[..k][c] != i;
      assert i !in sel[..k];
      assert sel[..k + 1] == sel[..k] + [i];
      r := r[i := r[i].(usedCount := r[i].usedCount + 1)];
      k := k + 1;
    }
    assert sel[..k] == sel;
  }

  /** Raising use counts does not change which events are stored. */
  lemma BumpedKeepsValid(items: seq<BufferItem>, sel: seq<nat>, capacity: int)
    requires BufferValid(items, capacity)
    ensures BufferValid(Bumped(items, sel), capacity)
  {
    var t := Bumped(items, sel);
    assert forall i :: 0 <= i < |t| ==> t[i].memberEvent == items[i].memberEvent;
  }

  /** The newer buffer: ties on the use count go to the newer event. */
  class MembershipEventBuffer {
    const capacity: int
    var items: seq<BufferItem>

    predicate Valid()
      reads this
    {
      BufferValid(items, capacity)
    }

    /** The list is created with `bufferSize` as its capacity. */
    constructor (bufferSize: int)
      requires 0 <= bufferSize
      ensures Valid() && capacity == bufferSize && items == []
    {
      capacity := bufferSize;
      items := [];
    }

    method Add(e: MembershipEvent) returns (r: Result<bool>)
      requires Valid()
      modifies this
      ensures Valid()
      ensures var s := AddEvent(old(items), capacity, e);
        (s.Ok? ==> r == Ok(s.value.accepted) && items == s.value.items)
        && (s.Err? ==> r == Err(s.error) && items == old(items))
    {
      AddKeepsValidOrFails(items, capacity, e);
      if HasEvent(items, e.eventId) {
        return Ok(false);
      }
      var k := NodeIndex(items, e.nodeId);
      if k != -1 {
        if items[k].memberEvent.timestamp < e.timestamp {
          items := items[k := NewItem(e)];
          return Ok(true);
        }
        return Ok(false);
      }
      if |items| + 1 < capacity {
        items := items + [NewItem(e)];
      } else {
        var maxIndex := MostUsedIndex(items);
        if maxIndex == -1 {
          return Err(ArgumentOutOfRange);
        }
        items := items[maxIndex := NewItem(e)];
      }
      return Ok(true);
    }

    /** Returns the next `top` events by fewest uses, then newest first, and
        counts one more use for each of them. */
    method GetNextEvents(top: int) returns (events: seq<MembershipEvent>)
      requires Valid()
      modifies this
      ensures Valid()
      ensures var sel := Selected(old(items), top, true);
        (forall k :: 0 <= k < |sel| ==> sel[k] < |old(items)|)
        && events == Picked(old(items), sel) && items == Bumped(old(items), sel)
    {
      var sel := Selected(items, top, true);
      SelectedAreLeastUsed(items, top, true);
      OrderedIsDistinct(items, sel, true);
      BumpedKeepsValid(items, sel, capacity);
      events := Picked(items, sel);
      items := BumpAll(items, sel);
    }
  }

  /** The older buffer: ties on the use count go to the older event. */
  class SwimMembershipEventBuffer {
    const capacity: int
    var items: seq<BufferItem>

    predicate Valid()
      reads this
    {
      BufferValid(items, capacity)
    }

    constructor (bufferSize: int)
      requires 0 <= bufferSize
      ensures Valid() && capacity == bufferSize && items == []
    {
      capacity := bufferSize;
      items := [];
    }

    method Add(e: MembershipEvent) returns (r: Result<bool>)
      requires Valid()
      modifies this
      ensures Valid()
      ensures var s := AddEvent(old(items), capacity, e);
        (s.Ok? ==> r == Ok(s.value.accepted) && items == s.value.items)
        && (s.Err? ==> r == Err(s.error) && items == old(items))
    {
      AddKeepsValidOrFails(items, capacity, e);
      if HasEvent(items, e.eventId) {
        return Ok(false);
      }
      var k := NodeIndex(items, e.nodeId);
      if k != -1 {
        if items[k].memberEvent.timestamp < e.timestamp {
          items := items[k := NewItem(e)];
          return Ok(true);
        }
        return Ok(false);
      }
      if |items| + 1 < capacity {
        items := items + [NewItem(e)];
      } else {
        var maxIndex := MostUsedIndex(items);
        if maxIndex == -1 {
          return Err(ArgumentOutOfRange);
        }
        items := items[maxIndex := NewItem(e)];
      }
      return Ok(true);
    }

    /** Returns the next `top` events by fewest uses, then oldest first, and
        counts one more use for each of them. */
    method GetNextEvents(top: int) returns (events: seq<MembershipEvent>)
      requires Valid()
      modifies this
      ensures Valid()
      ensures var sel := Selected(old(items), top, false);
        (forall k :: 0 <= k < |sel| ==> sel[k] < |old(items)|)
        && events == Picked(old(items), sel) && items == Bumped(old(items), sel)
    {
      var sel := Selected(items, top, false);
      SelectedAreLeastUsed(items, top, false);
      OrderedIsDistinct(items, sel, false);
      BumpedKeepsValid(items, sel, capacity);
      events := Picked(items, sel);
      items := BumpAll(items, sel);
    }
  }

  /** Validity after `Add`, when it succeeds. */
  lemma AddKeepsValidOrFails(items: seq<BufferItem>, capacity: int, e: MembershipEvent)
    requires BufferValid(items, capacity)
    ensures AddEvent(items, capacity, e).Ok? ==> BufferValid(AddEvent(items, capacity, e).value.items, capacity)
  {
    if AddEvent(items, capacity, e).Ok? {
      AddKeepsValid(items, capacity, e);
    }
  }
}
