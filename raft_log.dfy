/** The in-memory Raft log (InMemoryLogRepository): a linked list of entries
    numbered from `logsStartIndex`, the last index/term pair and the commit
    index.  Every operation is specified by a pure function on `LogState`,
    and the class's methods are proved to produce exactly that state. */
module RaftLog {
  import opened Common

  datatype LogIndex = LogIndex(index: int, term: int)

  datatype LogEntry = LogEntry(index: int, term: int, entry: Command)

  /** The four fields of the repository, as one value. */
  datatype LogState = LogState(lastIndex: LogIndex, commitedIndex: int, startIndex: int, logs: seq<LogEntry>)

  // ---------------------------------------------------------------------
  // Well-formedness

  ghost predicate Numbered(logs: seq<LogEntry>, start: int) {
    forall k :: 0 <= k < |logs| ==> logs[k].index == start + k
  }

  /** What every reachable state satisfies, whatever call sequence led to it. */
  ghost predicate Valid(s: LogState) {
    s.startIndex >= 1 && s.commitedIndex >= 0
  }

  /** The retained entries are numbered consecutively from the start index,
      and `lastIndex` names the last of them (its term too, when there is one). */
  ghost predicate Consistent(s: LogState) {
    && Valid(s)
    && Numbered(s.logs, s.startIndex)
    && s.lastIndex.index == s.startIndex + |s.logs| - 1
    && (|s.logs| > 0 ==> s.lastIndex.term == s.logs[|s.logs| - 1].term)
  }

  function Empty(): LogState {
    LogState(LogIndex(0, 0), 0, 1, [])
  }

  // ---------------------------------------------------------------------
  // Reads

  /** GetTermAtIndex: the term stored at `index`, by position in the retained list. */
  function TermAt(s: LogState, index: int): Result<int> {
    if s.startIndex <= index < s.startIndex + |s.logs| then Ok(s.logs[index - s.startIndex].term)
    else Err(ArgumentOutOfRange)
  }

  /** GetByIndex: bounds checked against the start and `LastIndex`, then the
      list itself (ElementAt throws past its end). */
  function EntryAt(s: LogState, index: int): Result<LogEntry> {
    if index < s.startIndex || index > s.lastIndex.index then Err(ArgumentOutOfRange)
    else if index - s.startIndex >= |s.logs| then Err(ArgumentOutOfRange)
    else Ok(s.logs[index - s.startIndex])
  }

  /** GetLogsAtIndex: the commands of `count` entries from `index` on. */
  function LogsAt(s: LogState, index: int, count: int): Result<seq<Command>> {
    if index < s.startIndex || (index - s.startIndex) + count > |s.logs| then Err(ArgumentOutOfRange)
    else if count <= 0 then Ok([])
    else Ok(Commands(s.logs[index - s.startIndex .. index - s.startIndex + count]))
  }

  function Commands(entries: seq<LogEntry>): (r: seq<Command>)
    ensures |r| == |entries|
    ensures forall k :: 0 <= k < |entries| ==> r[k] == entries[k].entry
  {
    if entries == [] then [] else [entries[0].entry] + Commands(entries[1..])
  }

  // ---------------------------------------------------------------------
  // Writes

  /** Append(term, entry): the entry gets index `LastIndex.Index + 1`. */
  function AppendOne(s: LogState, term: int, entry: Command): (LogState, int) {
    var index := s.lastIndex.index + 1;
    (s.(logs := s.logs + [LogEntry(index, term, entry)], lastIndex := LogIndex(index, term)), index)
  }

  /** `entries` numbered from `index`, all under `term`. */
  function Numbering(index: int, term: int, entries: seq<Command>): (r: seq<LogEntry>)
    ensures |r| == |entries|
    ensures forall k :: 0 <= k < |r| ==> r[k] == LogEntry(index + k, term, entries[k])
    decreases |entries|
  {
    if entries == [] then [] else [LogEntry(index, term, entries[0])] + Numbering(index + 1, term, entries[1..])
  }

  /** The retained entries below `index`. */
  function Truncated(s: LogState, index: int): seq<LogEntry>
    requires s.startIndex <= index
  {
    if index - s.startIndex < |s.logs| then s.logs[..index - s.startIndex] else s.logs
  }

  /** Append(index, term, entries) AS WRITTEN: the guard refuses `index`
      past `LastIndex.Index`, and `LastIndex` ends up one past the last entry
      written (the loop's counter after its final increment). */
  function AppendRangeAsWritten(s: LogState, index: int, term: int, entries: seq<Command>): Result<LogState> {
    if index < s.startIndex || index > s.lastIndex.index then Err(ArgumentOutOfRange)
    else Ok(s.(logs := Truncated(s, index) + Numbering(index, term, entries),
               lastIndex := LogIndex(index + |entries|, term)))
  }

  /** Append(index, term, entries) as evidently intended: `index` may be
      one past the last entry (the follower extends its log), and `LastIndex`
      names the last entry actually held. */
  function AppendFrom(s: LogState, index: int, term: int, entries: seq<Command>): Result<LogState> {
    if index < s.startIndex || index > s.lastIndex.index + 1 then Err(ArgumentOutOfRange)
    else
      var logs := Truncated(s, index) + Numbering(index, term, entries);
      Ok(s.(logs := logs, lastIndex := LastOf(logs, s.startIndex, s.lastIndex)))
  }

  /** The last index/term of `logs`, or `start - 1` when nothing is retained. */
  function LastOf(logs: seq<LogEntry>, start: int, previous: LogIndex): LogIndex {
    if |logs| > 0 then LogIndex(logs[|logs| - 1].index, logs[|logs| - 1].term)
    else LogIndex(start - 1, if start - 1 == previous.index then previous.term else 0)
  }

  /** Commit(index). */
  function CommitTo(s: LogState, index: int): Result<LogState> {
    if index > s.lastIndex.index || s.commitedIndex > index then Err(ArgumentOutOfRange)
    else Ok(s.(commitedIndex := index))
  }

  /** EraseBefore(index): the state after the call and whether it threw.  The
      guard almost never fires; past the end, RemoveFirst throws on the empty
      list after the retained entries are already gone. */
  function EraseBeforeResult(s: LogState, index: int): (LogState, Outcome) {
    if index > s.lastIndex.index && s.startIndex > index then (s, Failed(ArgumentOutOfRange))
    else if index <= s.startIndex then (s, Done)
    else if index - s.startIndex <= |s.logs| then (s.(logs := s.logs[index - s.startIndex..], startIndex := index), Done)
    else (s.(logs := [], startIndex := s.startIndex + |s.logs|), Failed(InvalidOperation))
  }

  // ---------------------------------------------------------------------
  // Properties

  lemma {:induction false} AppendOneKeepsConsistent(s: LogState, term: int, entry: Command)
    requires Consistent(s)
    ensures Consistent(AppendOne(s, term, entry).0)
    ensures AppendOne(s, term, entry).1 == s.lastIndex.index + 1
    ensures TermAt(AppendOne(s, term, entry).0, s.lastIndex.index + 1) == Ok(term)
    ensures forall i :: i != s.lastIndex.index + 1 ==> TermAt(AppendOne(s, term, entry).0, i) == TermAt(s, i)
  {
    var t := AppendOne(s, term, entry).0;
    assert forall k :: 0 <= k < |s.logs| ==> t.logs[k] == s.logs[k];
  }

  /** Successive appends to a fresh log are numbered 1, 2, 3, ... */
  function AppendAll(s: LogState, terms: seq<int>, entries: seq<Command>): (r: (LogState, seq<int>))
    requires |terms| == |entries|
    decreases |terms|
  {
    if terms == [] then (s, [])
    else
      var (s1, i) := AppendOne(s, terms[0], entries[0]);
      var (s2, rest) := AppendAll(s1, terms[1..], entries[1..]);
      (s2, [i] + rest)
  }

  lemma {:induction false} AppendAllNumbers(s: LogState, terms: seq<int>, entries: seq<Command>)
    requires |terms| == |entries|
    requires Consistent(s)
    ensures Consistent(AppendAll(s, terms, entries).0)
    ensures AppendAll(s, terms, entries).0.lastIndex.index == s.lastIndex.index + |terms|
    ensures |AppendAll(s, terms, entries).1| == |terms|
    ensures forall k :: 0 <= k < |terms| ==> AppendAll(s, terms, entries).1[k] == s.lastIndex.index + 1 + k
    decreases |terms|
  {
    if terms != [] {
      AppendOneKeepsConsistent(s, terms[0], entries[0]);
      AppendAllNumbers(AppendOne(s, terms[0], entries[0]).0, terms[1..], entries[1..]);
    }
  }

  lemma FreshLogAppends(terms: seq<int>, entries: seq<Command>)
    requires |terms| == |entries|
    ensures AppendAll(Empty(), terms, entries).0.lastIndex.index == |terms|
    ensures |AppendAll(Empty(), terms, entries).1| == |terms|
    ensures forall k :: 0 <= k < |terms| ==> AppendAll(Empty(), terms, entries).1[k] == k + 1
  {
    AppendAllNumbers(Empty(), terms, entries);
  }

  /** Committing never lowers the commit index and never passes the last index. */
  lemma CommitBounds(s: LogState, index: int)
    ensures CommitTo(s, index).Ok? <==> s.commitedIndex <= index <= s.lastIndex.index
    ensures CommitTo(s, index).Ok? ==> CommitTo(s, index).value.commitedIndex == index
    ensures CommitTo(s, index).Ok? ==> CommitTo(s, index).value.(commitedIndex := s.commitedIndex) == s
    ensures CommitTo(s, s.commitedIndex).Ok? <==> s.commitedIndex <= s.lastIndex.index
  {
  }

  /** In a consistent log, GetTermAtIndex answers exactly for the retained
      indices, with the term of the entry GetByIndex returns. */
  lemma {:induction false} TermAtMatchesEntryAt(s: LogState, index: int)
    requires Consistent(s)
    ensures TermAt(s, index).Ok? <==> s.startIndex <= index <= s.lastIndex.index
    ensures TermAt(s, index).Ok? <==> EntryAt(s, index).Ok?
    ensures EntryAt(s, index).Ok? ==> EntryAt(s, index).value.index == index
    ensures TermAt(s, index).Ok? ==> TermAt(s, index).value == EntryAt(s, index).value.term
  {
  }

  /** GetLogsAtIndex returns exactly the commands of entries index..index+count-1, in order. */
  /** When LogsAt succeeds, and how many commands it returns. */
  lemma LogsAtBounds(s: LogState, index: int, count: int)
    requires Consistent(s)
    ensures LogsAt(s, index, count).Ok? <==> s.startIndex <= index && index + count <= s.lastIndex.index + 1
    ensures LogsAt(s, index, count).Ok? ==> |LogsAt(s, index, count).value| == Max(count, 0)
  {
  }

  lemma {:induction false} LogsAtIsRange(s: LogState, index: int, count: int)
    requires Consistent(s)
    ensures LogsAt(s, index, count).Ok? <==> s.startIndex <= index && index + count <= s.lastIndex.index + 1
    ensures LogsAt(s, index, count).Ok? ==> |LogsAt(s, index, count).value| == Max(count, 0)
    ensures LogsAt(s, index, count).Ok? ==>
              forall i :: index <= i < index + count ==> EntryAt(s, i).Ok? && LogsAt(s, index, count).value[i - index] == EntryAt(s, i).value.entry
  {
    if LogsAt(s, index, count).Ok? && count > 0 {
      var from := index - s.startIndex;
      assert LogsAt(s, index, count).value == Commands(s.logs[from .. from + count]);
      forall i | index <= i < index + count
        ensures EntryAt(s, i).Ok? && LogsAt(s, index, count).value[i - index] == EntryAt(s, i).value.entry
      {
        assert s.logs[from .. from + count][i - index] == s.logs[i - s.startIndex];
      }
    }
  }

  /** EraseBefore keeps every entry at or after `index`, with its index and contents. */
  lemma {:induction false} EraseBeforeKeepsTail(s: LogState, index: int)
    requires Consistent(s)
    requires index <= s.lastIndex.index + 1
    ensures EraseBeforeResult(s, index).1 == Done
    ensures Consistent(EraseBeforeResult(s, index).0)
    ensures EraseBeforeResult(s, index).0.startIndex == Max(s.startIndex, index)
    ensures forall i :: i >= index ==> EntryAt(EraseBeforeResult(s, index).0, i) == EntryAt(s, i)
  {
  }

  /** The corrected append: it succeeds up to one past the last entry, keeps
      the entries below `index`, writes the new ones under `term` and leaves a
      consistent log whose last index is that of the last written entry. */
  lemma {:induction false} AppendFromWrites(s: LogState, index: int, term: int, entries: seq<Command>)
    requires Consistent(s)
    ensures AppendFrom(s, index, term, entries).Ok? <==> s.startIndex <= index <= s.lastIndex.index + 1
    ensures AppendFrom(s, index, term, entries).Ok? ==>
              var t := AppendFrom(s, index, term, entries).value;
              && Consistent(t)
              && t.commitedIndex == s.commitedIndex && t.startIndex == s.startIndex
              && (|entries| > 0 ==> t.lastIndex == LogIndex(index + |entries| - 1, term))
              && (forall i :: s.startIndex <= i < index ==> EntryAt(t, i) == EntryAt(s, i))
              && (forall i :: index <= i < index + |entries| ==> EntryAt(t, i) == Ok(LogEntry(i, term, entries[i - index])))
  {
    if s.startIndex <= index <= s.lastIndex.index + 1 {
      AppendedConsistent(s, index, term, entries);
      AppendedKeepsPrefix(s, index, term, entries);
      AppendedWritesEntries(s, index, term, entries);
    }
  }

  /** The list an in-range append leaves: the kept prefix, then the new entries. */
  lemma AppendedShape(s: LogState, index: int, term: int, entries: seq<Command>)
    requires Consistent(s)
    requires s.startIndex <= index <= s.lastIndex.index + 1
    ensures var logs := Truncated(s, index) + Numbering(index, term, entries);
            && |Truncated(s, index)| == index - s.startIndex
            && |logs| == index - s.startIndex + |entries|
            && Numbered(logs, s.startIndex)
  {
    var kept := Truncated(s, index);
    var logs := kept + Numbering(index, term, entries);
    assert |kept| == index - s.startIndex;
    forall k | 0 <= k < |logs| ensures logs[k].index == s.startIndex + k {
      if k < |kept| {
        assert logs[k] == s.logs[k];
      } else {
        assert logs[k] == Numbering(index, term, entries)[k - |kept|];
      }
    }
  }

  lemma AppendedConsistent(s: LogState, index: int, term: int, entries: seq<Command>)
    requires Consistent(s)
    requires s.startIndex <= index <= s.lastIndex.index + 1
    ensures var t := AppendFrom(s, index, term, entries).value;
            && Consistent(t)
            && t.commitedIndex == s.commitedIndex && t.startIndex == s.startIndex
            && (|entries| > 0 ==> t.lastIndex == LogIndex(index + |entries| - 1, term))
  {
    AppendedShape(s, index, term, entries);
    var logs := Truncated(s, index) + Numbering(index, term, entries);
    if |entries| > 0 {
      assert logs[|logs| - 1] == Numbering(index, term, entries)[|entries| - 1];
    }
  }

  lemma AppendedKeepsPrefix(s: LogState, index: int, term: int, entries: seq<Command>)
    requires Consistent(s)
    requires s.startIndex <= index <= s.lastIndex.index + 1
    ensures var t := AppendFrom(s, index, term, entries).value;
            forall i :: s.startIndex <= i < index ==> EntryAt(t, i) == EntryAt(s, i)
  {
    var t := AppendFrom(s, index, term, entries).value;
    AppendedConsistent(s, index, term, entries);
    AppendedShape(s, index, term, entries);
    var kept := Truncated(s, index);
    forall i | s.startIndex <= i < index ensures EntryAt(t, i) == EntryAt(s, i) {
      assert t.logs[i - s.startIndex] == kept[i - s.startIndex] == s.logs[i - s.startIndex];
    }
  }

  lemma AppendedWritesEntries(s: LogState, index: int, term: int, entries: seq<Command>)
    requires Consistent(s)
    requires s.startIndex <= index <= s.lastIndex.index + 1
    ensures var t := AppendFrom(s, index, term, entries).value;
            forall i :: index <= i < index + |entries| ==> EntryAt(t, i) == Ok(LogEntry(i, term, entries[i - index]))
  {
    var t := AppendFrom(s, index, term, entries).value;
    AppendedConsistent(s, index, term, entries);
    AppendedShape(s, index, term, entries);
    var kept := Truncated(s, index);
    var written := Numbering(index, term, entries);
    forall i | index <= i < index + |entries| ensures EntryAt(t, i) == Ok(LogEntry(i, term, entries[i - index])) {
      assert t.logs[i - s.startIndex] == written[i - index];
    }
  }

  /** Finding, first half: as written, the append a follower needs to extend
      its log (index = LastIndex.Index + 1) is always refused. */
  lemma AppendPastEndRefused(s: LogState, term: int, entries: seq<Command>)
    ensures AppendRangeAsWritten(s, s.lastIndex.index + 1, term, entries) == Err(ArgumentOutOfRange)
    ensures Consistent(s) ==> AppendFrom(s, s.lastIndex.index + 1, term, entries).Ok?
  {
  }

  /** Finding, second half: as written, replacing the last entry with one new
      entry leaves `LastIndex` one past the entries held. */
  lemma {:induction false} AppendRangeOvershoots(s: LogState, term: int, entry: Command)
    requires Consistent(s)
    requires s.lastIndex.index >= s.startIndex
    ensures AppendRangeAsWritten(s, s.lastIndex.index, term, [entry]).Ok?
    ensures var t := AppendRangeAsWritten(s, s.lastIndex.index, term, [entry]).value;
            |t.logs| == |s.logs| && t.lastIndex.index == s.lastIndex.index + 1 && !Consistent(t)
  {
    var t := AppendRangeAsWritten(s, s.lastIndex.index, term, [entry]).value;
    assert |Truncated(s, s.lastIndex.index)| == |s.logs| - 1;
  }

  // ---------------------------------------------------------------------
  // The repository object

  class InMemoryLogRepository {
    var lastIndex: LogIndex
    var commitedIndex: int
    var logsStartIndex: int
    var logs: seq<LogEntry>

    function State(): LogState
      reads this
    {
      LogState(lastIndex, commitedIndex, logsStartIndex, logs)
    }

    constructor ()
      ensures State() == Empty() && Consistent(State())
    {
      lastIndex := LogIndex(0, 0);
      commitedIndex := 0;
      logsStartIndex := 1;
      logs := [];
    }

    function GetTermAtIndex(index: int): (r: Result<int>)
      reads this
      ensures r == TermAt(State(), index)
    {
      if logsStartIndex <= index < logsStartIndex + |logs| then Ok(logs[index - logsStartIndex].term)
      else Err(ArgumentOutOfRange)
    }

    function GetByIndex(index: int): (r: Result<LogEntry>)
      reads this
      ensures r == EntryAt(State(), index)
    {
      EntryAt(State(), index)
    }

    function GetLogsAtIndex(index: int, count: int): (r: Result<seq<Command>>)
      reads this
      ensures r == LogsAt(State(), index, count)
    {
      LogsAt(State(), index, count)
    }

    method AppendEntry(term: int, entry: Command) returns (index: int)
      modifies this
      ensures (State(), index) == AppendOne(old(State()), term, entry)
    {
      index := lastIndex.index + 1;
      logs := logs + [LogEntry(index, term, entry)];
      lastIndex := LogIndex(index, term);
    }

    /** Append(index, term, entries) as written: drop the entries from
        `index` on, one RemoveLast at a time, then add the new ones. */
    method AppendRange(index: int, term: int, entries: seq<Command>) returns (o: Outcome)
      modifies this
      ensures var r := AppendRangeAsWritten(old(State()), index, term, entries);
              if r.Ok? then o == Done && State() == r.value else o == Failed(r.error) && State() == old(State())
    {
      if index < logsStartIndex || index > lastIndex.index {
        return Failed(ArgumentOutOfRange);
      }
      RemoveFrom(index);
      var next := AddNumbered(index, term, entries);
      lastIndex := LogIndex(next, term);
      o := Done;
    }

    /** The corrected append used by the Raft node. */
    method AppendFromIndex(index: int, term: int, entries: seq<Command>) returns (o: Outcome)
      modifies this
      ensures var r := AppendFrom(old(State()), index, term, entries);
              if r.Ok? then o == Done && State() == r.value else o == Failed(r.error) && State() == old(State())
    {
      if index < logsStartIndex || index > lastIndex.index + 1 {
        return Failed(ArgumentOutOfRange);
      }
      RemoveFrom(index);
      var _ := AddNumbered(index, term, entries);
      lastIndex := LastOf(logs, logsStartIndex, lastIndex);
      o := Done;
    }

    /** The RemoveLast loop: drops the retained entries from `index` on. */
    method RemoveFrom(index: int)
      requires logsStartIndex <= index
      modifies this
      ensures State() == old(State()).(logs := Truncated(old(State()), index))
    {
      ghost var s := State();
      while |logs| + logsStartIndex > index
        invariant State() == s.(logs := logs)
        invariant |logs| <= |s.logs| && logs == s.logs[..|logs|]
        invariant |logs| >= Min(index - logsStartIndex, |s.logs|)
        decreases |logs|
      {
        logs := logs[..|logs| - 1];
      }
    }

    /** The AddLast loop: adds `entries` numbered from `index` under `term`,
        and returns the counter after its last increment. */
    method AddNumbered(index: int, term: int, entries: seq<Command>) returns (next: int)
      modifies this
      ensures next == index + |entries|
      ensures State() == old(State()).(logs := old(logs) + Numbering(index, term, entries))
    {
      ghost var s := State();
      next := index;
      var k := 0;
      while k < |entries|
        invariant 0 <= k <= |entries| && next == index + k
        invariant State() == s.(logs := s.logs + Numbering(index, term, entries[..k]))
      {
        assert entries[..k + 1] == entries[..k] + [entries[k]];
        NumberingSnoc(index, term, entries[..k], entries[k]);
        logs := logs + [LogEntry(next, term, entries[k])];
        next := next + 1;
        k := k + 1;
      }
      assert entries[..k] == entries;
    }

    method Commit(index: int) returns (o: Outcome)
      modifies this
      ensures var r := CommitTo(old(State()), index);
              if r.Ok? then o == Done && State() == r.value else o == Failed(r.error) && State() == old(State())
    {
      if index > lastIndex.index || commitedIndex > index {
        return Failed(ArgumentOutOfRange);
      }
      commitedIndex := index;
      o := Done;
    }

    method EraseBefore(index: int) returns (o: Outcome)
      modifies this
      ensures State() == EraseBeforeResult(old(State()), index).0
      ensures o == EraseBeforeResult(old(State()), index).1
    {
      if index > lastIndex.index && logsStartIndex > index {
        return Failed(ArgumentOutOfRange);
      }
      ghost var s := State();
      while logsStartIndex < index
        invariant s.startIndex <= logsStartIndex <= Max(index, s.startIndex)
        invariant logsStartIndex - s.startIndex <= |s.logs|
        invariant lastIndex == s.lastIndex && commitedIndex == s.commitedIndex
        invariant logs == s.logs[logsStartIndex - s.startIndex..]
        decreases index - logsStartIndex
      {
        if logs == [] {
          return Failed(InvalidOperation);
        }
        assert s.logs[logsStartIndex - s.startIndex..][1..] == s.logs[logsStartIndex + 1 - s.startIndex..];
        logs := logs[1..];
        logsStartIndex := logsStartIndex + 1;
      }
      assert s.logs[0..] == s.logs;
      o := Done;
    }
  }

  lemma NumberingSnoc(index: int, term: int, entries: seq<Command>, e: Command)
    ensures Numbering(index, term, entries + [e]) == Numbering(index, term, entries) + [LogEntry(index + |entries|, term, e)]
  {
    var a := Numbering(index, term, entries + [e]);
    var b := Numbering(index, term, entries) + [LogEntry(index + |entries|, term, e)];
    assert |a| == |b|;
    assert forall k :: 0 <= k < |a| ==> a[k] == b[k];
  }
}
