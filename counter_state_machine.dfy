/** The sample service's replicated state machine: a 32-bit counter driven
    by Increment / Decrement / Reset commands, applied strictly in log order. */
module CounterService {
  import opened Common

  const IntMin: int := -0x8000_0000
  const IntRange: int := 0x1_0000_0000

  /** C#'s unchecked `int` arithmetic: the value modulo 2^32, read back as signed. */
  function Wrap32(x: int): (r: int)
    ensures IntMin <= r < IntMin + IntRange
    ensures (r - x) % IntRange == 0
  {
    (x - IntMin) % IntRange + IntMin
  }

  datatype CounterState = CounterState(index: int, counter: int)

  function Initial(): CounterState { CounterState(0, 0) }

  /** The counter after a supported command, or None for any other command type. */
  function Effect(counter: int, command: Command): Option<int> {
    match command
    case IncrementCounter => Some(Wrap32(counter + 1))
    case DecrementCounter => Some(Wrap32(counter - 1))
    case ResetCounter => Some(0)
    case OtherCommand(_) => None
  }

  /** Apply(command, index): the new state and the returned value or exception. */
  function Step(s: CounterState, command: Command, index: int): (CounterState, Result<int>) {
    if s.index + 1 != index then (s, Err(InvalidOperation))
    else match Effect(s.counter, command)
      case Some(c) => (CounterState(index, c), Ok(c))
      case None => (s, Err(NotImplemented))
  }

  predicate Supported(command: Command) { !command.OtherCommand? }

  /** Applies `commands` at indices from, from+1, ... stopping at the first failure. */
  function ApplyFrom(s: CounterState, commands: seq<Command>, from: int): (CounterState, seq<Result<int>>)
    decreases |commands|
  {
    if commands == [] then (s, [])
    else
      var (s1, r) := Step(s, commands[0], from);
      if r.Err? then (s1, [r])
      else
        var (s2, rs) := ApplyFrom(s1, commands[1..], from + 1);
        (s2, [r] + rs)
  }

  /** The counter value reached by replaying `commands` on `counter`. */
  function Replay(counter: int, commands: seq<Command>): int
    decreases |commands|
  {
    if commands == [] then counter
    else match Effect(counter, commands[0])
      case Some(c) => Replay(c, commands[1..])
      case None => counter
  }

  /** The counter keeps its value within the 32-bit range. */
  lemma StepStaysInRange(s: CounterState, command: Command, index: int)
    requires IntMin <= s.counter < IntMin + IntRange
    ensures IntMin <= Step(s, command, index).0.counter < IntMin + IntRange
  {
  }

  /** Apply succeeds exactly at CurrentIndex + 1 with a supported command;
      otherwise nothing changes. */
  lemma StepAcceptsOnlyNextIndex(s: CounterState, command: Command, index: int)
    ensures Step(s, command, index).1.Ok? <==> index == s.index + 1 && Supported(command)
    ensures Step(s, command, index).1.Ok? ==> Step(s, command, index).0 == CounterState(index, Step(s, command, index).1.value)
    ensures Step(s, command, index).1.Err? ==> Step(s, command, index).0 == s
    ensures index != s.index + 1 ==> Step(s, command, index).1 == Err(InvalidOperation)
    ensures index == s.index + 1 && !Supported(command) ==> Step(s, command, index).1 == Err(NotImplemented)
  {
  }

  /** Increment adds one, Decrement subtracts one, Reset yields zero (with wrap-around). */
  lemma CommandEffects(s: CounterState)
    ensures Step(s, IncrementCounter, s.index + 1).1 == Ok(Wrap32(s.counter + 1))
    ensures Step(s, DecrementCounter, s.index + 1).1 == Ok(Wrap32(s.counter - 1))
    ensures Step(s, ResetCounter, s.index + 1).1 == Ok(0)
    ensures IntMin <= s.counter < IntMin + IntRange - 1 ==> Step(s, IncrementCounter, s.index + 1).1 == Ok(s.counter + 1)
    ensures Step(CounterState(s.index, IntMin + IntRange - 1), IncrementCounter, s.index + 1).1 == Ok(IntMin)
  {
  }

  /** Applying supported commands at consecutive indices from CurrentIndex + 1
      succeeds for every one of them, ends at the last index and leaves the
      counter that replaying them gives; each returned value is the counter
      after that command. */
  lemma {:induction false} ApplyInOrder(s: CounterState, commands: seq<Command>)
    requires forall k :: 0 <= k < |commands| ==> Supported(commands[k])
    ensures ApplyFrom(s, commands, s.index + 1).0 == CounterState(s.index + |commands|, Replay(s.counter, commands))
    ensures |ApplyFrom(s, commands, s.index + 1).1| == |commands|
    ensures var results := ApplyFrom(s, commands, s.index + 1).1;
            forall k :: 0 <= k < |commands| ==> results[k] == Ok(Replay(s.counter, commands[..k + 1]))
    decreases |commands|
  {
    if commands != [] {
      var c := Effect(s.counter, commands[0]).value;
      var s1 := CounterState(s.index + 1, c);
      ApplyInOrder(s1, commands[1..]);
      forall k | 1 <= k < |commands|
        ensures Replay(s.counter, commands[..k + 1]) == Replay(c, commands[1..][..k])
      {
        assert commands[..k + 1][1..] == commands[1..][..k];
      }
      assert Replay(s.counter, commands[..1]) == c by {
        assert commands[..1][1..] == [];
      }
    }
  }

  /** From the initial state, commands applied at 1..k leave index k. */
  lemma FreshMachineAppliesFromOne(commands: seq<Command>)
    requires forall k :: 0 <= k < |commands| ==> Supported(commands[k])
    ensures ApplyFrom(Initial(), commands, 1).0.index == |commands|
    ensures ApplyFrom(Initial(), commands, 1).0.counter == Replay(0, commands)
  {
    ApplyInOrder(Initial(), commands);
  }

  /** Skipping an index is refused, whatever the command. */
  lemma GapRefused(s: CounterState, command: Command, gap: int)
    requires gap >= 1
    ensures Step(s, command, s.index + 1 + gap) == (s, Err(InvalidOperation))
    ensures Step(s, command, s.index) == (s, Err(InvalidOperation))
  {
  }

  class CounterStateMachine {
    var intex: int
    var counter: int

    function State(): CounterState
      reads this
    {
      CounterState(intex, counter)
    }

    constructor ()
      ensures State() == Initial()
    {
      intex := 0;
      counter := 0;
    }

    function CurrentIndex(): (r: int)
      reads this
      ensures r == State().index
    {
      intex
    }

    function Counter(): (r: int)
      reads this
      ensures r == State().counter
    {
      counter
    }

    method Apply(command: Command, index: int) returns (r: Result<int>)
      modifies this
      ensures (State(), r) == Step(old(State()), command, index)
    {
      if intex + 1 != index {
        return Err(InvalidOperation);
      }
      var result: int;
      match command {
        case IncrementCounter =>
          counter := Wrap32(counter + 1);
          result := counter;
        case DecrementCounter =>
          counter := Wrap32(counter - 1);
          result := counter;
        case ResetCounter =>
          counter := 0;
          result := counter;
        case OtherCommand(_) =>
          return Err(NotImplemented);
      }
      intex := index;
      r := Ok(result);
    }

    /** Snapshotting is not supported. */
    method Snapshot() returns (o: Outcome)
      ensures o == Failed(NotImplemented)
    {
      o := Failed(NotImplemented);
    }

    /** Restoring is not supported. */
    method Restore() returns (o: Outcome)
      ensures o == Failed(NotImplemented)
    {
      o := Failed(NotImplemented);
    }
  }
}
