/**
 What holds over every run of hook events, with any interleaving of parallel checks. A run
 is the sequence of events one guard state has seen; everything is said about the events
 themselves, so a claim about "an earlier check" names the event that started it.
 */
module GuardRuns {
  import opened JsonValue
  import opened OrderedDict
  import opened Guard

  /** The state after a run; an event whose transition raises leaves no trace. */
  function After(es: seq<Event>): State {
    if es == [] then FRESH
    else
      var s := After(es[..|es| - 1]);
      match Step(s, es[|es| - 1])
      case Raise => s
      case Ok((t, _)) => t
  }

  /** The reply to event `i` of the run, None when its transition raised. */
  function ReplyAt(es: seq<Event>, i: nat): Option<Reply>
    requires i < |es|
  {
    match Step(After(es[..i]), es[i])
    case Raise => None
    case Ok((_, reply)) => Some(reply)
  }

  // ---------------------------------------------------------------- what an event is, by its own fields

  /** A shell call that runs the check runner. */
  predicate Starts(e: Event) {
    e.hook == PreToolUse && e.command.Some? && e.current.Some? && e.bash
  }

  /** The outcome of a tool call that ran the check runner. */
  predicate Reports(e: Event) {
    e.hook == PostToolUse && e.command.Some? && e.current.Some?
  }

  /** A report of exit code 0, with this snapshot before the check, after it and now. */
  predicate Succeeds(e: Event, snapshot: Snapshot) {
    e.receipt.exitCode == Some(0) && e.receipt.before == Some(snapshot) && e.receipt.after == Some(snapshot)
    && e.current == Some(snapshot)
  }

  /** Event `i` starts a check and was not denied. */
  predicate Accepted(es: seq<Event>, i: nat)
    requires i < |es|
  {
    Starts(es[i]) && ReplyAt(es, i) == Some(Allow)
  }

  /** Event `i` reports a check that is in flight. */
  predicate Reported(es: seq<Event>, i: nat)
    requires i < |es|
  {
    Reports(es[i]) && ReplyAt(es, i).Some? && Find(After(es[..i]).pending, es[i].call).Some?
  }

  function FlightAt(es: seq<Event>, i: nat): Flight
    requires i < |es| && Reported(es, i)
  {
    Find(After(es[..i]).pending, es[i].call).value
  }

  predicate Passed(es: seq<Event>, i: nat)
    requires i < |es|
  {
    Reported(es, i) && Succeeds(es[i], FlightAt(es, i).before)
  }

  predicate Failed(es: seq<Event>, i: nat)
    requires i < |es|
  {
    Reported(es, i) && !Succeeds(es[i], FlightAt(es, i).before)
  }

  /** What an event meant does not depend on what came later. */
  lemma PrefixMeaning(es: seq<Event>, n: nat, i: nat)
    requires i < n <= |es|
    ensures es[..n][i] == es[i] && ReplyAt(es[..n], i) == ReplyAt(es, i)
    ensures Accepted(es[..n], i) == Accepted(es, i) && Reported(es[..n], i) == Reported(es, i)
    ensures Passed(es[..n], i) == Passed(es, i) && Failed(es[..n], i) == Failed(es, i)
    ensures Reported(es, i) ==> FlightAt(es[..n], i) == FlightAt(es, i)
  {
    assert es[..n][..i] == es[..i];
  }

  /** The effect of the last event of a run. */
  lemma LastEvent(es: seq<Event>)
    requires es != []
    ensures
      var i := |es| - 1;
      var s, t := After(es[..i]), After(es);
      (Accepted(es, i) ==> t == Start(s, es[i]))
      && (Reported(es, i) ==> t == Finish(s, es[i]))
      && (!Accepted(es, i) && !Reported(es, i)
          ==> t.verified == s.verified && t.pending == s.pending && t.failures == s.failures)
      && (s.baseline.Some? ==> t.baseline == s.baseline)
  {
    var i := |es| - 1;
    var s, e := After(es[..i]), es[i];
    if e.hook == UserPromptSubmit {
    } else if s.baseline.Some? && e.current.Some? {
    }
  }

  /** Bounds and shape of every reachable state. */
  predicate Bounded(s: State) {
    Unique(s.pending) && Unique(s.failures) && |s.pending| <= 16 && |s.failures| <= 16
  }

  lemma NewestSpec<K, V>(d: Dict<K, V>)
    requires Unique(d) && |d| <= LIMIT + 1
    ensures Unique(Newest(d)) && |Newest(d)| <= LIMIT
    ensures forall x :: Find(Newest(d), x) == if |d| > LIMIT && x == d[0].0 then None else Find(d, x)
  {
    if |d| > LIMIT { DropFirstSpec(d); }
  }

  /** The pending calls after an accepted start: the new one is there, at most the oldest is gone. */
  lemma StartSpec(s: State, e: Event)
    requires Bounded(s) && Starts(e)
    ensures
      var t := Start(s, e);
      Bounded(t) && Find(t.pending, e.call) == Some(Flight(Check(e.command.value, e.current.value), e.current.value))
      && t.failures == s.failures && t.verified == None
      && forall c | c != e.call :: Find(t.pending, c) == Find(s.pending, c)
           || (Find(t.pending, c) == None && |s.pending| == LIMIT && c == s.pending[0].0)
  {
    var pending := if |s.pending| >= LIMIT then s.pending[1..] else s.pending;
    if |s.pending| >= LIMIT { DropFirstSpec(s.pending); }
    PutSpec(pending, e.call, Flight(Check(e.command.value, e.current.value), e.current.value));
  }

  /** The failure counts after a report: its own check is updated and never the one evicted. */
  lemma FinishSpec(s: State, e: Event)
    requires Bounded(s) && Reports(e) && Find(s.pending, e.call).Some?
    ensures
      var flight := Find(s.pending, e.call).value;
      var t := Finish(s, e);
      Bounded(t)
      && (forall c :: Find(t.pending, c) == if c == e.call then None else Find(s.pending, c))
      && (if Succeeds(e, flight.before)
          then t.verified == e.current
               && forall x :: Find(t.failures, x) == if x == flight.check then None else Find(s.failures, x)
          else t.verified == None
               && Find(t.failures, flight.check).Some?
               && (FailureCount(t, flight.check) ==
                   if FailureCount(s, flight.check) + 1 < 3 then FailureCount(s, flight.check) + 1 else 3)
               && forall x | x != flight.check ::
                    Find(t.failures, x) == Find(s.failures, x)
                    || (Find(t.failures, x) == None && |s.failures| == LIMIT && x == s.failures[0].0))
  {
    var flight := Find(s.pending, e.call).value;
    RemoveSpec(s.pending, e.call);
    if Succeeds(e, flight.before) {
      RemoveSpec(s.failures, flight.check);
    } else {
      var count := FailureCount(s, flight.check) + 1;
      var n := if count < MAX_FAILURES then count else MAX_FAILURES;
      PutSpec(s.failures, flight.check, n);
      NewestSpec(Put(s.failures, flight.check, n));
    }
  }

  /** In every run both dictionaries stay within their limit. */
  lemma {:induction false} AlwaysBounded(es: seq<Event>)
    ensures Bounded(After(es))
  {
    if es != [] {
      var i := |es| - 1;
      AlwaysBounded(es[..i]);
      LastEvent(es);
      if Accepted(es, i) {
        StartSpec(After(es[..i]), es[i]);
      } else if Reported(es, i) {
        FinishSpec(After(es[..i]), es[i]);
      }
    }
  }

  // ---------------------------------------------------------------- checks in flight

  /** Event `i` is the accepted start of `call`, which has neither started again nor reported since. */
  predicate LastStart(es: seq<Event>, i: nat, call: Call) {
    i < |es| && Accepted(es, i) && es[i].call == call
    && forall k | i < k < |es| && es[k].call == call :: !Accepted(es, k) && !Reported(es, k)
  }

  lemma LastStartExtends(es: seq<Event>, i: nat, call: Call)
    requires es != [] && LastStart(es[..|es| - 1], i, call)
    requires es[|es| - 1].call == call ==> !Accepted(es, |es| - 1) && !Reported(es, |es| - 1)
    ensures LastStart(es, i, call)
  {
    var n := |es| - 1;
    PrefixMeaning(es, n, i);
    forall k | i < k < |es| && es[k].call == call ensures !Accepted(es, k) && !Reported(es, k) {
      if k < n { PrefixMeaning(es, n, k); }
    }
  }

  lemma LastStartUnique(es: seq<Event>, i: nat, j: nat, call: Call)
    requires LastStart(es, i, call) && LastStart(es, j, call)
    ensures i == j
  {
  }

  /** A call in flight was started by its last accepted start, at the snapshot of that event. */
  lemma {:induction false} FlightOrigin(es: seq<Event>, call: Call) returns (i: nat)
    requires Find(After(es).pending, call).Some?
    ensures LastStart(es, i, call)
    ensures Find(After(es).pending, call).value
         == Flight(Check(es[i].command.value, es[i].current.value), es[i].current.value)
  {
    var n := |es| - 1;
    var s := After(es[..n]);
    AlwaysBounded(es[..n]);
    LastEvent(es);
    if Accepted(es, n) && es[n].call == call {
      StartSpec(s, es[n]);
      i := n;
    } else {
      if Accepted(es, n) {
        StartSpec(s, es[n]);
      } else if Reported(es, n) {
        FinishSpec(s, es[n]);
      }
      hide Start, Finish;
      i := FlightOrigin(es[..n], call);
      LastStartExtends(es, i, call);
    }
  }

  // ---------------------------------------------------------------- when a snapshot is verified

  /**
   The evidence for a snapshot: a check was accepted at it (event `i`), that very check
   reported success with exit code 0 before and after at it (event `j`), and since then no
   check has been accepted and none has reported.
   */
  predicate Evidence(es: seq<Event>, snapshot: Snapshot, i: nat, j: nat) {
    i < j < |es| && LastStart(es[..j], i, es[j].call) && es[i].current == Some(snapshot)
    && Reported(es, j) && Succeeds(es[j], snapshot)
    && forall k | j < k < |es| :: !Accepted(es, k) && !Reported(es, k)
  }

  lemma EvidenceIsVerified(es: seq<Event>, snapshot: Snapshot, i: nat, j: nat)
    requires Evidence(es, snapshot, i, j)
    ensures After(es).verified == Some(snapshot)
    decreases |es|
  {
    var n := |es| - 1;
    LastEvent(es);
    if j < n {
      assert es[..n][..j] == es[..j];
      forall k | j < k < n ensures !Accepted(es[..n], k) && !Reported(es[..n], k) {
        PrefixMeaning(es, n, k);
      }
      PrefixMeaning(es, n, j);
      EvidenceIsVerified(es[..n], snapshot, i, j);
    } else {
      var o := FlightOrigin(es[..j], es[j].call);
      LastStartUnique(es[..j], i, o, es[j].call);
    }
  }

  lemma {:induction false} VerifiedHasEvidence(es: seq<Event>) returns (i: nat, j: nat)
    requires After(es).verified.Some?
    ensures Evidence(es, After(es).verified.value, i, j)
  {
    var n := |es| - 1;
    LastEvent(es);
    if Reported(es, n) {
      j := n;
      i := FlightOrigin(es[..n], es[n].call);
    } else {
      i, j := VerifiedHasEvidence(es[..n]);
      assert es[..n][..j] == es[..j];
      PrefixMeaning(es, n, j);
      forall k | j < k < |es| ensures !Accepted(es, k) && !Reported(es, k) {
        if k < n { PrefixMeaning(es, n, k); }
      }
    }
  }

  /** The snapshot of the first prompt that could be answered. */
  function FirstPrompt(es: seq<Event>): Option<Snapshot> {
    if es == [] then None
    else if es[0].hook == UserPromptSubmit && es[0].current.Some? then es[0].current
    else FirstPrompt(es[1..])
  }

  lemma {:induction false} FirstPromptExtends(es: seq<Event>)
    requires es != []
    ensures FirstPrompt(es) ==
      if FirstPrompt(es[..|es| - 1]).Some? then FirstPrompt(es[..|es| - 1]) else FirstPrompt(es[|es| - 1..])
  {
    if |es| > 1 {
      FirstPromptExtends(es[1..]);
      assert es[..|es| - 1][1..] == es[1..][..|es[1..]| - 1];
      assert es[1..][|es[1..]| - 1..] == es[|es| - 1..];
    }
  }

  /** The baseline is the snapshot of the first answered prompt, whatever happens later. */
  lemma {:induction false} BaselineIsFirstPrompt(es: seq<Event>)
    ensures After(es).baseline == FirstPrompt(es)
  {
    if es != [] {
      BaselineIsFirstPrompt(es[..|es| - 1]);
      FirstPromptExtends(es);
      LastEvent(es);
      assert es[|es| - 1..] == [es[|es| - 1]];
      assert FirstPrompt([es[|es| - 1]][1..]) == None;
    }
  }

  /**
   A stop is allowed exactly at the baseline, at a snapshot with evidence, or when the final
   message admits the blocker.
   */
  lemma StopAllowedIff(es: seq<Event>, e: Event, snapshot: Snapshot)
    requires e.hook in {Stop, SubagentStop} && e.current == Some(snapshot) && FirstPrompt(es).Some?
    ensures Step(After(es), e).Ok?
    ensures Step(After(es), e).value.1 == Allow
      <==> FirstPrompt(es) == Some(snapshot)
           || (exists i: nat, j: nat :: Evidence(es, snapshot, i, j))
           || e.blockerAdmitted
  {
    BaselineIsFirstPrompt(es);
    if After(es).verified == Some(snapshot) {
      var i, j := VerifiedHasEvidence(es);
    }
    if i: nat, j: nat :| Evidence(es, snapshot, i, j) {
      EvidenceIsVerified(es, snapshot, i, j);
    }
  }

  /** Once set, the baseline is the same after any longer run. */
  lemma {:induction false} BaselineFixed(es: seq<Event>, n: nat)
    requires n <= |es| && After(es[..n]).baseline.Some?
    ensures After(es).baseline == After(es[..n]).baseline
    decreases |es| - n
  {
    if n == |es| {
      assert es[..n] == es;
    } else {
      var last := es[..n + 1];
      assert last[..n] == es[..n];
      LastEvent(last);
      BaselineFixed(es, n + 1);
    }
  }

  // ---------------------------------------------------------------- failure counts

  predicate Absent(es: seq<Event>, check: Check) {
    Find(After(es).failures, check).None?
  }

  /** Event `i` reports a failure of this check. */
  predicate FailedFor(es: seq<Event>, i: nat, check: Check)
    requires i < |es|
  {
    Failed(es, i) && FlightAt(es, i).check == check
  }

  /** The length of the longest part of the run after which the check has no entry. */
  function LastAbsent(es: seq<Event>, check: Check): (n: nat)
    ensures n <= |es| && Absent(es[..n], check)
    ensures forall k | n < k <= |es| :: !Absent(es[..k], check)
  {
    if Absent(es, check) then
      assert es[..|es|] == es;
      |es|
    else
      var rest := es[..|es| - 1];
      var n := LastAbsent(rest, check);
      assert forall k | 0 <= k <= |rest| :: rest[..k] == es[..k];
      assert es[..|es|] == es;
      n
  }

  /** How many reports of failure of this check there are from event `from` on. */
  function FailuresFrom(es: seq<Event>, check: Check, from: nat): nat {
    if |es| <= from then 0
    else FailuresFrom(es[..|es| - 1], check, from) + if FailedFor(es, |es| - 1, check) then 1 else 0
  }

  function AtMostThree(n: nat): nat {
    if n < 3 then n else 3
  }

  /**
   In every run the stored count of a check is the number of its failures since it last had
   no entry, capped at three.
   */
  lemma {:induction false} CountsFailures(es: seq<Event>, check: Check)
    ensures FailureCount(After(es), check) == AtMostThree(FailuresFrom(es, check, LastAbsent(es, check)))
  {
    if !Absent(es, check) {
      var n := |es| - 1;
      CountsFailures(es[..n], check);
      AlwaysBounded(es[..n]);
      LastEvent(es);
      if Accepted(es, n) {
        StartSpec(After(es[..n]), es[n]);
      } else if Reported(es, n) {
        FinishSpec(After(es[..n]), es[n]);
      }
    }
  }

  /** The entries after a failure: its own, and all before but for the first of sixteen if its own is new. */
  lemma FailureEntries(s: State, e: Event, check: Check)
    requires Bounded(s) && Reports(e) && Find(s.pending, e.call).Some?
    requires !Succeeds(e, Find(s.pending, e.call).value.before)
    ensures
      var own := Find(s.pending, e.call).value.check;
      Find(Finish(s, e).failures, check).Some?
      <==> check == own
           || (Find(s.failures, check).Some?
               && !(Find(s.failures, own).None? && |s.failures| == 16 && s.failures[0].0 == check))
  {
    var own := Find(s.pending, e.call).value.check;
    var n := if FailureCount(s, own) + 1 < 3 then FailureCount(s, own) + 1 else 3;
    PutSpec(s.failures, own, n);
    NewestSpec(Put(s.failures, own, n));
    hide Put, Find, Newest;
  }

  /** The entries of a dictionary of failures, by when their checks last had none. */
  ghost predicate OldestFirst(es: seq<Event>, d: Dict<Check, int>) {
    forall a, b | 0 <= a < b < |d| :: LastAbsent(es, d[a].0) < LastAbsent(es, d[b].0)
  }

  lemma LastAbsentExtends(es: seq<Event>, check: Check)
    requires es != [] && !Absent(es, check)
    ensures LastAbsent(es, check) == LastAbsent(es[..|es| - 1], check)
  {
  }

  /** A dictionary of entries that are there before and after an event keeps its order. */
  lemma OrderKept(es: seq<Event>, d: Dict<Check, int>)
    requires es != [] && OldestFirst(es[..|es| - 1], d)
    requires forall i | 0 <= i < |d| :: !Absent(es, d[i].0)
    ensures OldestFirst(es, d)
  {
    forall i | 0 <= i < |d| ensures LastAbsent(es, d[i].0) == LastAbsent(es[..|es| - 1], d[i].0) {
      LastAbsentExtends(es, d[i].0);
    }
  }

  lemma EntriesPresent(es: seq<Event>)
    ensures forall i | 0 <= i < |After(es).failures| :: !Absent(es, After(es).failures[i].0)
  {
    forall i | 0 <= i < |After(es).failures| ensures !Absent(es, After(es).failures[i].0) {
      EntryFound(After(es).failures, i);
    }
  }

  lemma AbsentLast(es: seq<Event>, check: Check)
    ensures if Absent(es, check) then LastAbsent(es, check) == |es| else LastAbsent(es, check) < |es|
  {
    assert es[..|es|] == es;
  }

  lemma AppendedOrder(es: seq<Event>, d: Dict<Check, int>, check: Check, n: int)
    requires OldestFirst(es, d) && Absent(es, check) && forall i | 0 <= i < |d| :: !Absent(es, d[i].0)
    ensures OldestFirst(es, d + [(check, n)])
  {
    hide Absent, LastAbsent;
    AbsentLast(es, check);
    forall i | 0 <= i < |d| ensures LastAbsent(es, d[i].0) < |es| {
      AbsentLast(es, d[i].0);
    }
  }

  lemma NewestOrder(es: seq<Event>, d: Dict<Check, int>)
    requires OldestFirst(es, d)
    ensures OldestFirst(es, Newest(d))
  {
    hide LastAbsent;
  }

  /** A failed check gets the last place, or keeps the one it has. */
  lemma FailureOrder(es: seq<Event>, check: Check, n: int)
    requires OldestFirst(es, After(es).failures) && Unique(After(es).failures)
    ensures OldestFirst(es, Newest(Put(After(es).failures, check, n)))
  {
    var d := After(es).failures;
    EntriesPresent(es);
    hide LastAbsent, After;
    if Find(d, check).Some? {
      var p := PutAt(d, check, n);
      assert OldestFirst(es, d[p := (check, n)]);
    } else {
      PutSpec(d, check, n);
      AppendedOrder(es, d, check, n);
    }
    NewestOrder(es, Put(d, check, n));
  }

  lemma RemovedOrder(es: seq<Event>, d: Dict<Check, int>, check: Check)
    requires OldestFirst(es, d)
    ensures OldestFirst(es, Remove(d, check))
  {
    var p := RemoveAt(d, check);
  }

  /** In every run the failure entries stand in the order they came, so the one evicted is the oldest. */
  lemma {:induction false} FailuresInOrder(es: seq<Event>)
    ensures OldestFirst(es, After(es).failures)
  {
    if es != [] {
      var i := |es| - 1;
      var before, s, t := es[..i], After(es[..i]), After(es);
      FailuresInOrder(before);
      AlwaysBounded(before);
      LastEvent(es);
      EntriesPresent(es);
      if Reported(es, i) {
        var check := FlightAt(es, i).check;
        RemovedOrder(before, s.failures, check);
        var count := FailureCount(s, check) + 1;
        FailureOrder(before, check, if count < MAX_FAILURES then count else MAX_FAILURES);
      }
      assert OldestFirst(before, t.failures);
      OrderKept(es, t.failures);
    }
  }

  /** The check has an entry, and no other has had one for longer. */
  ghost predicate OldestEntry(es: seq<Event>, check: Check) {
    !Absent(es, check)
    && forall other | !Absent(es, other) && other != check :: LastAbsent(es, check) < LastAbsent(es, other)
  }

  lemma FirstIsOldest(es: seq<Event>, check: Check)
    ensures OldestEntry(es, check) <==> After(es).failures != [] && After(es).failures[0].0 == check
  {
    FailuresInOrder(es);
    EntriesPresent(es);
    hide After, LastAbsent;
    var d := After(es).failures;
    if OldestEntry(es, check) {
      var p := FoundAt(d, check);
      var first := d[0].0;
      assert !Absent(es, first);
    }
    if d != [] && d[0].0 == check {
      forall other | !Absent(es, other) && other != check ensures LastAbsent(es, check) < LastAbsent(es, other) {
        var p := FoundAt(d, other);
      }
    }
  }

  /**
   Which checks have an entry after an event: the one it reports as failed, and those that had,
   but for the one it reports as passed and, if a check fails that had none while sixteen have,
   the one that has had its entry longest.
   */
  lemma {:induction false} EntryIff(es: seq<Event>, check: Check)
    requires es != []
    ensures
      var i := |es| - 1;
      var before := es[..i];
      !Absent(es, check)
      <==> (Failed(es, i) && FlightAt(es, i).check == check)
           || (!Absent(before, check)
               && !(Passed(es, i) && FlightAt(es, i).check == check)
               && !(Failed(es, i) && Absent(before, FlightAt(es, i).check)
                    && |After(before).failures| == 16 && OldestEntry(before, check)))
  {
    var i := |es| - 1;
    var before := es[..i];
    AlwaysBounded(before);
    LastEvent(es);
    FirstIsOldest(before, check);
    hide OldestEntry, After, Finish, Find, ReplyAt, Succeeds, FailureCount, Bounded;
    if Reported(es, i) {
      FinishSpec(After(before), es[i]);
      if Failed(es, i) {
        FailureEntries(After(before), es[i], check);
      }
    }
  }

  /**
   An entry is lost only by a success of that check, or when another check fails, which had no
   entry, while sixteen are there and this one has been there longest.
   */
  lemma EntryLost(es: seq<Event>, check: Check)
    requires es != [] && !Absent(es[..|es| - 1], check) && Absent(es, check)
    ensures
      var i := |es| - 1;
      var before := es[..i];
      Reported(es, i)
      && if Passed(es, i) then FlightAt(es, i).check == check
         else FlightAt(es, i).check != check && Absent(before, FlightAt(es, i).check)
              && |After(before).failures| == 16
              && forall other | !Absent(before, other) && other != check ::
                   LastAbsent(before, check) < LastAbsent(before, other)
  {
    EntryIff(es, check);
    hide After, Absent, LastAbsent, Succeeds;
  }

  // ---------------------------------------------------------------- the order of the calls in flight

  predicate InFlight(es: seq<Event>, call: Call) {
    Find(After(es).pending, call).Some?
  }

  /** Sixteen calls are in flight. */
  predicate Full(es: seq<Event>) {
    |After(es).pending| == 16
  }

  /**
   The last event gives the call a place behind all others: it starts the call, which was not
   in flight, or had to make room for itself.
   */
  ghost predicate TakesPlace(es: seq<Event>, call: Call)
    requires es != []
    decreases |es|, 1
  {
    var n := |es| - 1;
    Accepted(es, n) && es[n].call == call
    && (!InFlight(es[..n], call) || (Full(es[..n]) && Longest(es[..n], call)))
  }

  /** The start since which the call has been in flight without a break. */
  ghost function Since(es: seq<Event>, call: Call): nat
    decreases |es|, 2
  {
    if es == [] then 0 else if TakesPlace(es, call) then |es| - 1 else Since(es[..|es| - 1], call)
  }

  /** No other call in flight has been so since an earlier start. */
  ghost predicate Longest(es: seq<Event>, call: Call)
    decreases |es|, 3
  {
    InFlight(es, call) && forall other | InFlight(es, other) && other != call :: Since(es, call) < Since(es, other)
  }

  /** The calls stand in the order of their starts. */
  ghost predicate StartOrder(es: seq<Event>, d: Dict<Call, Flight>) {
    (forall a | 0 <= a < |d| :: Since(es, d[a].0) < |es|)
    && forall a, b | 0 <= a < b < |d| :: Since(es, d[a].0) < Since(es, d[b].0)
  }

  /** Calls that take no new place keep their order. */
  lemma {:induction false} StartOrderKept(es: seq<Event>, d: Dict<Call, Flight>)
    requires es != [] && StartOrder(es[..|es| - 1], d)
    requires forall a | 0 <= a < |d| :: !TakesPlace(es, d[a].0)
    ensures StartOrder(es, d)
  {
    hide TakesPlace;
    forall a | 0 <= a < |d| ensures Since(es, d[a].0) == Since(es[..|es| - 1], d[a].0) {
    }
    hide Since;
  }

  /** In an ordered dictionary the first call is the one that has been in flight longest, and the only such. */
  lemma {:induction false} FirstIsLongest(es: seq<Event>, call: Call)
    requires StartOrder(es, After(es).pending)
    ensures Longest(es, call) <==> After(es).pending != [] && After(es).pending[0].0 == call
  {
    hide Since, After;
    var d := After(es).pending;
    forall a | 0 <= a < |d| ensures InFlight(es, d[a].0) {
      EntryFound(d, a);
    }
    if Longest(es, call) {
      var p := FoundAt(d, call);
      var first := d[0].0;
      assert InFlight(es, first);
    }
    if d != [] && d[0].0 == call {
      forall other | InFlight(es, other) && other != call ensures Since(es, call) < Since(es, other) {
        var p := FoundAt(d, other);
      }
    }
  }

  /** An accepted start puts its call last or leaves it in its place, and drops the first of sixteen. */
  lemma {:induction false} StartKeepsOrder(es: seq<Event>)
    requires es != [] && Accepted(es, |es| - 1)
    requires StartOrder(es[..|es| - 1], After(es[..|es| - 1]).pending)
    ensures StartOrder(es, After(es).pending)
  {
    var n := |es| - 1;
    var before, call, d := es[..n], es[n].call, After(es[..n]).pending;
    AlwaysBounded(before);
    LastEvent(es);
    FirstIsLongest(before, call);
    var rest := if |d| >= 16 then d[1..] else d;
    var flight := Flight(CheckOf(es[n]), es[n].current.value);
    assert After(es).pending == Put(rest, call, flight);
    if d != [] {
      DropFirstSpec(d);
    }
    assert StartOrder(before, rest) && Unique(rest);
    hide After, Since, Accepted, Start, Bounded, Longest;
    if Find(rest, call).Some? {
      var p := PutAt(rest, call, flight);
      assert InFlight(before, call);
      StartStays(es, rest, p, call, flight);
    } else {
      PutSpec(rest, call, flight);
      StartAppends(es, rest, call, flight);
    }
  }

  lemma {:induction false} StartStays(es: seq<Event>, rest: Dict<Call, Flight>, p: nat, call: Call, flight: Flight)
    requires es != [] && StartOrder(es[..|es| - 1], rest) && !TakesPlace(es, call) && es[|es| - 1].call == call
    requires p < |rest| && rest[p].0 == call
    ensures StartOrder(es, rest[p := (call, flight)])
  {
    StartOrderKept(es, rest);
    hide Since;
  }

  lemma {:induction false} StartAppends(es: seq<Event>, rest: Dict<Call, Flight>, call: Call, flight: Flight)
    requires es != [] && StartOrder(es[..|es| - 1], rest) && TakesPlace(es, call) && Find(rest, call).None?
    ensures StartOrder(es, rest + [(call, flight)])
  {
    forall a | 0 <= a < |rest| ensures !TakesPlace(es, rest[a].0) {
      EntryFound(rest, a);
    }
    StartOrderKept(es, rest);
    assert Since(es, call) == |es| - 1;
    forall a | 0 <= a < |rest| ensures Since(es, rest[a].0) < |es| - 1 {
      assert Since(es, rest[a].0) == Since(es[..|es| - 1], rest[a].0);
    }
    hide Since;
  }

  /** In every run the calls in flight stand in the order of the starts since which they are. */
  lemma {:induction false} FlightsInOrder(es: seq<Event>)
    ensures StartOrder(es, After(es).pending)
  {
    if es != [] {
      var n := |es| - 1;
      var before := es[..n];
      FlightsInOrder(before);
      LastEvent(es);
      if Accepted(es, n) {
        StartKeepsOrder(es);
      } else {
        var d := After(before).pending;
        if Reported(es, n) {
          var p := RemoveAt(d, es[n].call);
        }
        hide Since, TakesPlace;
        assert StartOrder(before, After(es).pending);
        forall a | 0 <= a < |After(es).pending| ensures !TakesPlace(es, After(es).pending[a].0) {
          OnlyStartsTakePlace(es, After(es).pending[a].0);
        }
        StartOrderKept(es, After(es).pending);
      }
    }
  }

  lemma {:induction false} OnlyStartsTakePlace(es: seq<Event>, call: Call)
    requires es != []
    ensures TakesPlace(es, call) ==> Accepted(es, |es| - 1)
  {
  }

  /** A call in flight has been so, without a break, since an accepted start of its own. */
  lemma {:induction false} SinceStart(es: seq<Event>, call: Call)
    requires InFlight(es, call)
    ensures
      var i := Since(es, call);
      i < |es| && Accepted(es, i) && es[i].call == call && forall k | i < k <= |es| :: InFlight(es[..k], call)
  {
    var n := |es| - 1;
    FlightIff(es, call);
    assert es[..|es|] == es;
    if !TakesPlace(es, call) {
      assert InFlight(es[..n], call);
      SinceStart(es[..n], call);
      var i := Since(es, call);
      PrefixMeaning(es, n, i);
      forall k | i < k <= |es| ensures InFlight(es[..k], call) {
        if k <= n {
          assert es[..n][..k] == es[..k];
        }
      }
    }
  }

  /**
   Which calls are in flight after an event: the one it starts, and those that were, but for
   the one it reports and, if it starts a call while sixteen are in flight, the one that has
   been in flight longest.
   */
  lemma {:induction false} FlightIff(es: seq<Event>, call: Call)
    requires es != []
    ensures
      var i := |es| - 1;
      InFlight(es, call)
      <==> (Accepted(es, i) && es[i].call == call)
           || (InFlight(es[..i], call)
               && !(Reported(es, i) && es[i].call == call)
               && !(Accepted(es, i) && Full(es[..i]) && Longest(es[..i], call)))
  {
    var i := |es| - 1;
    var before := es[..i];
    AlwaysBounded(before);
    FlightsInOrder(before);
    FirstIsLongest(before, call);
    LastEvent(es);
    hide Longest, StartOrder;
    if Accepted(es, i) {
      StartFlights(After(before), es[i], call);
    } else if Reported(es, i) {
      FinishSpec(After(before), es[i]);
    }
  }

  /** The calls in flight after a start: that one, and all before but for the first of sixteen. */
  lemma {:induction false} StartFlights(s: State, e: Event, call: Call)
    requires Bounded(s) && Starts(e)
    ensures Find(Start(s, e).pending, call).Some?
       <==> call == e.call
            || (Find(s.pending, call).Some? && !(|s.pending| == 16 && s.pending[0].0 == call))
  {
    var rest := if |s.pending| >= 16 then s.pending[1..] else s.pending;
    if s.pending != [] {
      DropFirstSpec(s.pending);
    }
    PutSpec(rest, e.call, Flight(CheckOf(e), e.current.value));
    hide Put, Find;
  }

  /** A call stops being in flight only by its own report, or as the longest of sixteen when another call starts. */
  lemma {:induction false} FlightLost(es: seq<Event>, call: Call)
    requires es != [] && InFlight(es[..|es| - 1], call) && !InFlight(es, call)
    ensures
      var i := |es| - 1;
      (Reported(es, i) && es[i].call == call)
      || (Accepted(es, i) && es[i].call != call && Full(es[..i])
          && forall other | InFlight(es[..i], other) && other != call :: Since(es[..i], call) < Since(es[..i], other))
  {
    FlightIff(es, call);
    hide InFlight, Accepted, Reported, Full, Since;
  }

  /** The check a failure was just reported for has an entry, and so does the call just started. */
  lemma JustUpdatedIsKept(es: seq<Event>)
    requires es != []
    ensures
      var i := |es| - 1;
      (Failed(es, i) ==> !Absent(es, FlightAt(es, i).check))
      && (Accepted(es, i) ==>
            Find(After(es).pending, es[i].call)
            == Some(Flight(Check(es[i].command.value, es[i].current.value), es[i].current.value)))
  {
    var i := |es| - 1;
    AlwaysBounded(es[..i]);
    LastEvent(es);
    if Accepted(es, i) {
      StartSpec(After(es[..i]), es[i]);
    } else if Reported(es, i) {
      FinishSpec(After(es[..i]), es[i]);
    }
  }

  /** A check is denied exactly when it has failed three times or more since it last had no entry. */
  lemma DeniedIff(es: seq<Event>, e: Event)
    requires Starts(e) && FirstPrompt(es).Some?
    ensures Step(After(es), e).Ok?
    ensures
      var check := Check(e.command.value, e.current.value);
      Step(After(es), e).value.1 == Deny <==> FailuresFrom(es, check, LastAbsent(es, check)) >= 3
  {
    BaselineIsFirstPrompt(es);
    CountsFailures(es, Check(e.command.value, e.current.value));
  }

  // ---------------------------------------------------------------- the one-shot block

  lemma {:induction false} BlockRemembered(es: seq<Event>, i: nat)
    requires i < |es| && ReplyAt(es, i) == Some(Block)
    ensures After(es).stopRequested
  {
    var n := |es| - 1;
    if i < n {
      PrefixMeaning(es, n, i);
      BlockRemembered(es[..n], i);
      LastEvent(es);
    }
  }

  /** A guard state asks for verification by blocking at most once. */
  lemma BlockOnce(es: seq<Event>, i: nat, j: nat)
    requires i < |es| && j < |es| && ReplyAt(es, i) == Some(Block) && ReplyAt(es, j) == Some(Block)
    ensures i == j
  {
    var lo, hi := if i < j then i else j, if i < j then j else i;
    if lo < hi {
      PrefixMeaning(es, hi, lo);
      BlockRemembered(es[..hi], lo);
    }
  }

  /** The stop request is recorded exactly if the guard has blocked. */
  lemma {:induction false} StopRequestedIff(es: seq<Event>)
    ensures After(es).stopRequested <==> exists i :: 0 <= i < |es| && ReplyAt(es, i) == Some(Block)
  {
    if es != [] {
      var n := |es| - 1;
      StopRequestedIff(es[..n]);
      assert After(es).stopRequested <==> After(es[..n]).stopRequested || ReplyAt(es, n) == Some(Block);
      hide After, ReplyAt;
      if i :| 0 <= i < n && ReplyAt(es[..n], i) == Some(Block) {
        PrefixMeaning(es, n, i);
        assert ReplyAt(es, i) == Some(Block);
      }
      if i :| 0 <= i < |es| && ReplyAt(es, i) == Some(Block) {
        if i < n {
          PrefixMeaning(es, n, i);
          assert ReplyAt(es[..n], i) == Some(Block);
        }
      }
    }
  }

  // ---------------------------------------------------------------- every reply

  /** The snapshot needs no verification: it is the baseline or there is evidence for it. */
  ghost predicate InOrder(es: seq<Event>, snapshot: Snapshot) {
    FirstPrompt(es) == Some(snapshot) || exists i: nat, j: nat :: Evidence(es, snapshot, i, j)
  }

  /**
   What the guard answers after any run: an event without a snapshot or before the first prompt
   raises; a prompt gets the instructions; a check that has failed three times is denied; a stop
   is let through if the work is in order or the final message admits the blocker, and is
   otherwise blocked once and halted from then on; anything else is let through.
   */
  ghost function Expected(es: seq<Event>, e: Event): Option<Reply> {
    if e.current.None? || (FirstPrompt(es).None? && e.hook != UserPromptSubmit) then None
    else if e.hook == UserPromptSubmit then Some(Context)
    else if Starts(e) then
      var check := Check(e.command.value, e.current.value);
      Some(if FailuresFrom(es, check, LastAbsent(es, check)) >= 3 then Deny else Allow)
    else if e.hook in {Stop, SubagentStop} then
      Some(if InOrder(es, e.current.value) || e.blockerAdmitted then Allow
           else if e.stopHookActive || exists i :: 0 <= i < |es| && ReplyAt(es, i) == Some(Block) then Halt
           else Block)
    else Some(Allow)
  }

  lemma EveryReply(es: seq<Event>, e: Event)
    ensures ReplyAt(es + [e], |es|) == Expected(es, e)
  {
    assert (es + [e])[..|es|] == es;
    BaselineIsFirstPrompt(es);
    StopRequestedIff(es);
    hide After, FirstPrompt, Evidence;
    if FirstPrompt(es).Some? && e.current.Some? {
      if Starts(e) {
        DeniedIff(es, e);
      } else if e.hook in {Stop, SubagentStop} {
        StopAllowedIff(es, e, e.current.value);
      }
    }
  }
}
