/**
 The verification guard's hook (client/prompts/runtime_guard.py): a state machine that
 remembers the workspace it started from, the checks in flight and the checks that failed,
 and decides whether a turn may end.

 Snapshots and command digests are opaque texts. A failure is counted per command and
 snapshot; the two digests have fixed width, so the source's concatenation is this pair.
 */
module Guard {
  import opened JsonValue
  import opened OrderedDict

  type Snapshot = string
  type Command = string
  type Call = string

  const LIMIT := 16
  const MAX_FAILURES := 3

  datatype Check = Check(command: Command, snapshot: Snapshot)

  /** A check in flight: what is being checked and the snapshot it started at. */
  datatype Flight = Flight(check: Check, before: Snapshot)

  datatype Hook = UserPromptSubmit | PreToolUse | PostToolUse | Stop | SubagentStop | OtherHook

  /** The fields of the receipt printed by the check runner; None where missing or of the wrong type. */
  datatype Receipt = Receipt(exitCode: Option<int>, before: Option<Snapshot>, after: Option<Snapshot>)

  /**
   A hook event. `current` is the workspace snapshot, None when taking it raises; `command`
   is the digest of a direct run of the check runner, None for any other command.
   */
  datatype Event = Event(
    hook: Hook, current: Option<Snapshot>, command: Option<Command>, bash: bool, call: Call,
    receipt: Receipt, blockerAdmitted: bool, stopHookActive: bool)

  datatype Reply = Context | Deny | Allow | Halt | Block

  datatype State = State(
    baseline: Option<Snapshot>, verified: Option<Snapshot>,
    pending: Dict<Call, Flight>, failures: Dict<Check, int>, stopRequested: bool)

  const FRESH := State(None, None, [], [], false)

  // ---------------------------------------------------------------- one event

  predicate IsStart(e: Event) {
    e.hook == PreToolUse && e.command.Some? && e.current.Some? && e.bash
  }

  predicate IsResult(e: Event) {
    e.hook == PostToolUse && e.command.Some? && e.current.Some?
  }

  predicate IsStop(e: Event) {
    e.hook in {Stop, SubagentStop} && e.current.Some?
  }

  function CheckOf(e: Event): Check
    requires IsStart(e)
  {
    Check(e.command.value, e.current.value)
  }

  function FailureCount(s: State, check: Check): int {
    var count := Find(s.failures, check);
    if count.Some? then count.value else 0
  }

  /** The receipt vouches for a check that started, ended and is reported at one snapshot. */
  predicate Vouches(e: Event, before: Snapshot) {
    e.receipt.exitCode == Some(0) && e.receipt.before == Some(before)
    && e.receipt.after == e.current && e.current == Some(before)
  }

  /** Drops the oldest entries until at most LIMIT are left. */
  function Newest<K, V>(d: Dict<K, V>): Dict<K, V> {
    if |d| > LIMIT then d[|d| - LIMIT..] else d
  }

  lemma NewestDropsOldest<K, V>(d: Dict<K, V>)
    requires |d| > LIMIT
    ensures Newest(d[1..]) == Newest(d)
  {
  }

  function Start(s: State, e: Event): State
    requires IsStart(e)
  {
    var pending := if |s.pending| >= LIMIT then s.pending[1..] else s.pending;
    s.(verified := None, pending := Put(pending, e.call, Flight(CheckOf(e), e.current.value)))
  }

  function Finish(s: State, e: Event): State
    requires IsResult(e) && Find(s.pending, e.call).Some?
  {
    var flight := Find(s.pending, e.call).value;
    var t := s.(pending := Remove(s.pending, e.call));
    if Vouches(e, flight.before)
    then t.(verified := e.current, failures := Remove(s.failures, flight.check))
    else
      var count := FailureCount(s, flight.check) + 1;
      t.(verified := None,
         failures := Newest(Put(s.failures, flight.check, if count < MAX_FAILURES then count else MAX_FAILURES)))
  }

  /** The next state and the reply; a transition that raises is discarded by its caller. */
  function Step(s: State, e: Event): Outcome<(State, Reply)> {
    if e.current.None? || (s.baseline.None? && e.hook != UserPromptSubmit) then Raise
    else
      var t := if s.baseline.None? then s.(baseline := e.current) else s;
      if e.hook == UserPromptSubmit then Ok((t, Context))
      else if IsStart(e) then
        if FailureCount(t, CheckOf(e)) >= MAX_FAILURES then Ok((t, Deny)) else Ok((Start(t, e), Allow))
      else if IsResult(e) && Find(t.pending, e.call).Some? then Ok((Finish(t, e), Allow))
      else if IsStop(e) then
        if e.current == t.baseline || e.current == t.verified || e.blockerAdmitted then Ok((t, Allow))
        else if e.stopHookActive || t.stopRequested then Ok((t, Halt))
        else Ok((t.(stopRequested := true), Block))
      else Ok((t, Allow))
  }

  /** The dictionary the hook mutates. */
  class GuardState {
    var baseline: Option<Snapshot>
    var verified: Option<Snapshot>
    var pending: Dict<Call, Flight>
    var failures: Dict<Check, int>
    var stopRequested: bool

    constructor ()
      ensures Value() == FRESH
    {
      baseline, verified, pending, failures, stopRequested := None, None, [], [], false;
    }

    /** Reads a stored state back. */
    constructor Load(s: State)
      ensures Value() == s
    {
      baseline, verified, pending := s.baseline, s.verified, s.pending;
      failures, stopRequested := s.failures, s.stopRequested;
    }

    function Value(): State
      reads this
    {
      State(baseline, verified, pending, failures, stopRequested)
    }

    method Transition(e: Event) returns (r: Outcome<Reply>)
      modifies this
      ensures
        match Step(old(Value()), e)
        case Raise => r == Raise && Value() == old(Value())
        case Ok((t, reply)) => r == Ok(reply) && Value() == t
    {
      if e.current.None? {
        return Raise;
      }
      var current := e.current.value;
      if baseline.None? {
        if e.hook != UserPromptSubmit {
          return Raise;
        }
        baseline := Some(current);
      }
      if e.hook == UserPromptSubmit {
        return Ok(Context);
      }
      if e.hook == PreToolUse && e.command.Some? && e.bash {
        var check := Check(e.command.value, current);
        var count := Find(failures, check);
        if count.Some? && count.value >= MAX_FAILURES {
          return Ok(Deny);
        }
        if |pending| >= LIMIT {
          pending := pending[1..];
        }
        verified := None;
        pending := Put(pending, e.call, Flight(check, current));
      } else if e.hook == PostToolUse && e.command.Some? && Find(pending, e.call).Some? {
        FinishCheck(e);
      } else if e.hook == Stop || e.hook == SubagentStop {
        if Some(current) == baseline || Some(current) == verified {
          return Ok(Allow);
        }
        if e.blockerAdmitted {
          return Ok(Allow);
        }
        if e.stopHookActive || stopRequested {
          return Ok(Halt);
        }
        stopRequested := true;
        return Ok(Block);
      }
      return Ok(Allow);
    }

    method FinishCheck(e: Event)
      requires IsResult(e) && Find(pending, e.call).Some?
      modifies this
      ensures Value() == Finish(old(Value()), e)
    {
      var flight := Find(pending, e.call).value;
      pending := Remove(pending, e.call);
      if Vouches(e, flight.before) {
        verified := e.current;
        failures := Remove(failures, flight.check);
      } else {
        verified := None;
        var count := Find(failures, flight.check);
        var n := if count.Some? then count.value + 1 else 1;
        failures := Put(failures, flight.check, if n < MAX_FAILURES then n else MAX_FAILURES);
        while |failures| > LIMIT
          invariant Value() == (Finish(old(Value()), e)).(failures := failures)
          invariant Newest(failures) == Finish(old(Value()), e).failures
        {
          NewestDropsOldest(failures);
          failures := failures[1..];
        }
      }
    }
  }
}
