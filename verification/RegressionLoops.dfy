/**
 The loops of the regression gate (scripts/mcp_conformance/run_codex_compliance.py), proved to
 compute the readings and the verdict that the results are about.
 */
module RegressionLoops {
  import opened JsonValue
  import opened Listing
  import opened GateRelation
  import opened RegressionReport
  import opened RegressionGate

  /** `identities.setdefault(identity, set()).add(status)` */
  function Added(checks: Checks, id: Identity, status: Status): Checks {
    checks[id := StatusesOf(checks, id) + {status}]
  }

  lemma MergedAdd(observed: set<Observation>, o: Observation)
    ensures Merged(observed + {o}) == Added(Merged(observed), o.0, o.1)
  {
    var more := observed + {o};
    assert Identities(more) == Identities(observed) + {o.0};
    var a, b := Merged(more), Added(Merged(observed), o.0, o.1);
    assert a.Keys == b.Keys;
    forall id | id in a ensures a[id] == b[id] {
      assert StatusesIn(more, id) == StatusesIn(observed, id) + (if id == o.0 then {o.1} else {});
      if id !in Identities(observed) {
        assert StatusesIn(observed, id) == {};
      }
    }
  }

  /** One transport case: every check is added to the identities or noted as malformed. */
  method CollectChecks(
    suite: Suite, mode: string, transport: Transport, raw: seq<Value>, ghost prior: set<Observation>, before: Checks)
    returns (crash: bool, problems: seq<Problem>, scenarios: set<string>, identities: Checks)
    requires before == Merged(prior)
    ensures
      match ReadChecks(suite, mode, transport, raw)
      case Crash => crash
      case Reading(p, observed) =>
        !crash && problems == p && identities == Merged(prior + observed)
        && (transport == OfficialHttp ==> scenarios == ObservedScenarios(observed, mode))
  {
    crash, problems, scenarios, identities := false, [], {}, before;
    ghost var observed: set<Observation> := {};
    assert prior + observed == prior;
    for i := 0 to |raw|
      invariant ReadChecks(suite, mode, transport, raw[..i]) == Reading(problems, observed)
      invariant identities == Merged(prior + observed)
      invariant transport == OfficialHttp ==> scenarios == ObservedScenarios(observed, mode)
    {
      assert raw[..i + 1][..i] == raw[..i];
      var check := ReadCheck(suite, mode, transport, raw[i]);
      match check
      case Unparsable =>
        CrashPersists(suite, mode, transport, raw, i + 1);
        crash := true;
        return;
      case Malformed =>
        problems := problems + [MalformedCheck(mode, transport)];
      case Good(o) =>
        MergedAdd(prior + observed, o);
        assert prior + (observed + {o}) == (prior + observed) + {o};
        CheckPlace(suite, mode, transport, raw[i]);
        hide ReadCheck, Merged;
        identities := Added(identities, o.0, o.1);
        if transport == OfficialHttp && o.0.source in {Official, Harness} {
          scenarios := scenarios + {o.0.scenario};
        }
        ScenariosAdd(observed, o, mode);
        observed := observed + {o};
    }
    assert raw[..|raw|] == raw;
  }

  lemma CheckPlace(suite: Suite, mode: string, transport: Transport, v: Value)
    requires ReadCheck(suite, mode, transport, v).Good?
    ensures ReadCheck(suite, mode, transport, v).value.0.mode == mode
    ensures ReadCheck(suite, mode, transport, v).value.0.transport == transport
  {
  }

  lemma ScenariosAdd(observed: set<Observation>, o: Observation, mode: string)
    ensures ObservedScenarios(observed + {o}, mode) == ObservedScenarios(observed, mode)
      + (if o.0.mode == mode && o.0.transport == OfficialHttp && o.0.source in {Official, Harness}
         then {o.0.scenario} else {})
  {
  }

  lemma {:induction false} CrashPersists(suite: Suite, mode: string, transport: Transport, raw: seq<Value>, n: nat)
    requires n <= |raw| && ReadChecks(suite, mode, transport, raw[..n]).Crash?
    ensures ReadChecks(suite, mode, transport, raw).Crash?
    decreases |raw| - n
  {
    hide ReadCheck;
    if n == |raw| {
      assert raw[..n] == raw;
    } else {
      assert raw[..n + 1][..n] == raw[..n];
      CrashPersists(suite, mode, transport, raw, n + 1);
    }
  }

  /** The transport cases of the required modes, by mode and transport. */
  method CollectTransportCases(suite: Suite, list: seq<Value>) returns (t: CaseTable)
    ensures t == CollectCases(suite, list)
  {
    var problems: seq<Problem>, cases: map<(string, string), Fields> := [], map[];
    for i := 0 to |list|
      invariant CaseTable(problems, cases) == CollectCases(suite, list[..i])
    {
      assert list[..i + 1][..i] == list[..i];
      var v := list[i];
      if !v.Obj? {
        problems := problems + [MalformedCase];
        continue;
      }
      var mode, transport := Get(v.fields, Mode), Get(v.fields, TransportKey);
      if !mode.Str? || mode.s !in suite.modes {
        continue;
      }
      if !transport.Str? {
        problems := problems + [MalformedCase];
        continue;
      }
      if (mode.s, transport.s) in cases {
        problems := problems + [DuplicateCase];
        continue;
      }
      cases := cases[(mode.s, transport.s) := v.fields];
    }
    assert list[..|list|] == list;
    t := CaseTable(problems, cases);
  }

  /** One required case, if it is there and has checks. */
  method ReadTransport(
    suite: Suite, cases: map<(string, string), Fields>, mode: string, transport: Transport,
    ghost prior: set<Observation>, before: Checks)
    returns (crash: bool, problems: seq<Problem>, identities: Checks)
    requires before == Merged(prior)
    ensures
      match ReadCase(suite, cases, mode, transport)
      case Crash => crash
      case Reading(p, observed) => !crash && problems == p && identities == Merged(prior + observed)
  {
    crash, problems, identities := false, [], before;
    assert prior + {} == prior;
    var key := (mode, TransportName(transport));
    if key !in cases {
      problems := [MissingCase(mode, transport)];
      return;
    }
    var raw := Get(cases[key], ChecksKey);
    if !raw.Arr? || raw.items == [] {
      problems := [NoChecks(mode, transport)];
      return;
    }
    var scenarios;
    crash, problems, scenarios, identities := CollectChecks(suite, mode, transport, raw.items, prior, before);
    if !crash && transport == OfficialHttp {
      var expected := SetOf(suite.catalog(mode));
      if expected - scenarios != {} {
        problems := problems + [MissingScenarios(mode, expected - scenarios)];
      }
      if scenarios - expected != {} {
        problems := problems + [UnexpectedScenarios(mode, scenarios - expected)];
      }
    }
  }

  /** One required mode: its scenario catalog and its two cases. */
  method ReadRequiredMode(
    suite: Suite, cases: map<(string, string), Fields>, selected: Fields, mode: string,
    ghost prior: set<Observation>, before: Checks)
    returns (crash: bool, problems: seq<Problem>, identities: Checks)
    requires before == Merged(prior)
    ensures
      match ReadMode(suite, cases, selected, mode)
      case Crash => crash
      case Reading(p, observed) => !crash && problems == p && identities == Merged(prior + observed)
  {
    hide ReadCase, Merged;
    var stdio, http;
    crash, stdio, identities := ReadTransport(suite, cases, mode, Stdio, prior, before);
    problems := Note(!RunsCatalog(suite, selected, mode), IncompleteCatalog(mode));
    if crash {
      return;
    }
    ghost var first := ReadCase(suite, cases, mode, Stdio).observed;
    crash, http, identities := ReadTransport(suite, cases, mode, OfficialHttp, prior + first, identities);
    if crash {
      return;
    }
    ghost var second := ReadCase(suite, cases, mode, OfficialHttp).observed;
    problems := problems + (stdio + http);
    assert prior + ({} + (first + second)) == prior + first + second;
  }

  /** All required modes of a full report. */
  method ReadRequiredModes(suite: Suite, cases: map<(string, string), Fields>, selected: Fields)
    returns (crash: bool, problems: seq<Problem>, identities: Checks)
    ensures
      match ReadModes(suite, cases, selected, suite.modes)
      case Crash => crash
      case Reading(p, observed) => !crash && problems == p && identities == Merged(observed)
  {
    crash, problems, identities := false, [], map[];
    ghost var observed: set<Observation> := {};
    var modes := suite.modes;
    for i := 0 to |modes|
      invariant ReadModes(suite, cases, selected, modes[..i]) == Reading(problems, observed)
      invariant identities == Merged(observed)
    {
      hide ReadMode, Merged;
      assert modes[..i + 1][..i] == modes[..i];
      var bad, more;
      bad, more, identities := ReadRequiredMode(suite, cases, selected, modes[i], observed, identities);
      if bad {
        ModesCrashPersists(suite, cases, selected, modes, i + 1);
        crash := true;
        return;
      }
      problems := problems + more;
      observed := observed + ReadMode(suite, cases, selected, modes[i]).observed;
    }
    assert modes[..|modes|] == modes;
  }

  lemma {:induction false} ModesCrashPersists(
    suite: Suite, cases: map<(string, string), Fields>, selected: Fields, modes: seq<string>, n: nat)
    requires n <= |modes| && ReadModes(suite, cases, selected, modes[..n]).Crash?
    ensures ReadModes(suite, cases, selected, modes).Crash?
    decreases |modes| - n
  {
    hide ReadMode;
    if n == |modes| {
      assert modes[..n] == modes;
    } else {
      assert modes[..n + 1][..n] == modes[..n];
      ModesCrashPersists(suite, cases, selected, modes, n + 1);
    }
  }

  lemma ComplaintsStep(ids: seq<Identity>, id: Identity, side: Side)
    ensures ShippingComplaints(ids + [id], side)
      == ShippingComplaints(ids, side)
         + [if side == Candidate then ShippingFailure(id) else BaselineShippingFailure(id)]
    ensures ShippingComplaints(ids + [], side) == ShippingComplaints(ids, side)
  {
    assert ids + [] == ids;
  }

  lemma SortedMember(suite: Suite, s: set<Identity>, i: nat)
    requires Sorts(suite) && i < |suite.sorted(s)|
    ensures suite.sorted(s)[i] in s
  {
    assert suite.sorted(s)[i] in suite.sorted(s);
  }

  lemma NothingAmong(l: seq<Identity>, keep: set<Identity>, side: Side)
    ensures Among(l[..0], keep) == [] && ShippingComplaints(Among(l[..0], keep), side) == []
  {
  }

  /** The candidate's identities in sorted order: every failure is known or new, and shipping must not fail. */
  method CompareCandidate(suite: Suite, now: Checks, before: Checks)
    returns (errors: seq<Complaint>, broken: seq<Identity>, known: seq<Identity>)
    requires Sorts(suite)
    ensures broken == suite.sorted(NewFailures(now, before)) && known == suite.sorted(KnownFailures(now, before))
    ensures errors == ShippingComplaints(suite.sorted(FailedIn(now, suite.shipping)), Candidate)
  {
    errors, broken, known := [], [], [];
    hide Sorts, Among, ShippingComplaints;
    var ids := suite.sorted(now.Keys);
    NothingAmong(ids, NewFailures(now, before), Candidate);
    NothingAmong(ids, KnownFailures(now, before), Candidate);
    NothingAmong(ids, FailedIn(now, suite.shipping), Candidate);
    for i := 0 to |ids|
      invariant broken == Among(ids[..i], NewFailures(now, before))
      invariant known == Among(ids[..i], KnownFailures(now, before))
      invariant errors == ShippingComplaints(Among(ids[..i], FailedIn(now, suite.shipping)), Candidate)
    {
      var id := ids[i];
      SortedMember(suite, now.Keys, i);
      AmongStep(ids, i, NewFailures(now, before));
      AmongStep(ids, i, KnownFailures(now, before));
      AmongStep(ids, i, FailedIn(now, suite.shipping));
      ComplaintsStep(Among(ids[..i], FailedIn(now, suite.shipping)), id, Candidate);
      if Fail in now[id] {
        if id.mode == suite.shipping {
          errors := errors + [ShippingFailure(id)];
        }
        if Fail in StatusesOf(before, id) {
          known := known + [id];
        } else {
          broken := broken + [id];
        }
      }
    }
    assert ids[..|ids|] == ids;
    SortedPart(suite, now.Keys, NewFailures(now, before));
    SortedPart(suite, now.Keys, KnownFailures(now, before));
    SortedPart(suite, now.Keys, FailedIn(now, suite.shipping));
  }

  /** The baseline's identities in sorted order: what passed or failed must still be there. */
  method CompareBaseline(suite: Suite, now: Checks, before: Checks)
    returns (errors: seq<Complaint>, missing: seq<Identity>, repaired: seq<Identity>)
    requires Sorts(suite)
    ensures missing == suite.sorted(MissingChecks(now, before)) && repaired == suite.sorted(FixedChecks(now, before))
    ensures errors == ShippingComplaints(suite.sorted(FailedIn(before, suite.shipping)), Baseline)
  {
    errors, missing, repaired := [], [], [];
    hide Sorts, Among, ShippingComplaints;
    var ids := suite.sorted(before.Keys);
    NothingAmong(ids, MissingChecks(now, before), Baseline);
    NothingAmong(ids, FixedChecks(now, before), Baseline);
    NothingAmong(ids, FailedIn(before, suite.shipping), Baseline);
    for i := 0 to |ids|
      invariant missing == Among(ids[..i], MissingChecks(now, before))
      invariant repaired == Among(ids[..i], FixedChecks(now, before))
      invariant errors == ShippingComplaints(Among(ids[..i], FailedIn(before, suite.shipping)), Baseline)
    {
      var id := ids[i];
      SortedMember(suite, before.Keys, i);
      AmongStep(ids, i, MissingChecks(now, before));
      AmongStep(ids, i, FixedChecks(now, before));
      AmongStep(ids, i, FailedIn(before, suite.shipping));
      ComplaintsStep(Among(ids[..i], FailedIn(before, suite.shipping)), id, Baseline);
      var statuses := StatusesOf(now, id);
      if id.mode == suite.shipping && Fail in before[id] {
        errors := errors + [BaselineShippingFailure(id)];
      }
      if Pass in before[id] && Pass !in statuses {
        missing := missing + [id];
      } else if Fail in before[id] && Fail !in statuses && Pass !in statuses {
        missing := missing + [id];
      } else if Fail in before[id] && Fail !in statuses {
        repaired := repaired + [id];
      }
    }
    assert ids[..|ids|] == ids;
    SortedPart(suite, before.Keys, MissingChecks(now, before));
    SortedPart(suite, before.Keys, FixedChecks(now, before));
    SortedPart(suite, before.Keys, FailedIn(before, suite.shipping));
  }

  /** The verdict on a candidate, given both sides' identities and what was wrong with the reports. */
  method Evaluate(suite: Suite, now: Checks, before: Checks, notes: seq<Complaint>) returns (r: Verdict)
    requires Sorts(suite)
    ensures r == Judge(suite, now, before, notes)
  {
    var shipping, broken, known := CompareCandidate(suite, now, before);
    var stale, missing, repaired := CompareBaseline(suite, now, before);
    var errors := notes + shipping + stale;
    r := Verdict(errors == [] && broken == [] && missing == [], errors, broken, missing, known, repaired);
  }

  lemma SortedPart(suite: Suite, all: set<Identity>, part: set<Identity>)
    requires Sorts(suite) && part <= all
    ensures Among(suite.sorted(all), part) == suite.sorted(part)
  {
    assert all * part == part;
  }
}
