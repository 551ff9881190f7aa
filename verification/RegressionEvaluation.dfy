/**
 The gate as it runs, from the two reports to the verdict
 (scripts/mcp_conformance/run_codex_compliance.py): compact baselines are read by loops of
 their own, full reports by those of RegressionLoops.
 */
module RegressionEvaluation {
  import opened JsonValue
  import opened GateRelation
  import opened RegressionReport
  import opened RegressionGate
  import opened RegressionLoops

  // ---------------------------------------------------------------- compact baselines

  lemma TaggedAdd(prior: set<Observation>, ids: set<Identity>, id: Identity, status: Status)
    ensures prior + Tagged(ids + {id}, status) == (prior + Tagged(ids, status)) + {(id, status)}
  {
  }

  lemma {:induction false} BucketCrashPersists(suite: Suite, records: seq<Value>, n: nat)
    requires n <= |records| && ReadRecords(suite, records[..n]).BucketCrash?
    ensures ReadRecords(suite, records).BucketCrash?
    decreases |records| - n
  {
    hide ReadRecord;
    if n == |records| {
      assert records[..n] == records;
    } else {
      assert records[..n + 1][..n] == records[..n];
      BucketCrashPersists(suite, records, n + 1);
    }
  }

  /** One bucket: every record is added under the bucket's status or noted as malformed or repeated. */
  method ReadIdentities(
    suite: Suite, records: seq<Value>, status: Status, ghost prior: set<Observation>, before: Checks)
    returns (crash: bool, problems: seq<Problem>, identities: Checks)
    requires before == Merged(prior)
    ensures
      match ReadRecords(suite, records)
      case BucketCrash => crash
      case Bucket(p, ids) => !crash && problems == p && identities == Merged(prior + Tagged(ids, status))
  {
    hide Merged, ReadRecord;
    crash, problems, identities := false, [], before;
    var seen: set<Identity> := {};
    assert prior + Tagged(seen, status) == prior;
    for i := 0 to |records|
      invariant ReadRecords(suite, records[..i]) == Bucket(problems, seen)
      invariant identities == Merged(prior + Tagged(seen, status))
    {
      assert records[..i + 1][..i] == records[..i];
      var record := ReadRecord(suite, records[i]);
      match record
      case Unparsable =>
        BucketCrashPersists(suite, records, i + 1);
        crash := true;
        return;
      case Malformed =>
        problems := problems + [MalformedIdentity];
      case Good(id) =>
        if id in seen {
          problems := problems + [DuplicateIdentity];
          continue;
        }
        TaggedAdd(prior, seen, id, status);
        MergedAdd(prior + Tagged(seen, status), (id, status));
        identities := Added(identities, id, status);
        seen := seen + {id};
    }
    assert records[..|records|] == records;
  }

  method ReadBucketOf(suite: Suite, v: Value, status: Status, ghost prior: set<Observation>, before: Checks)
    returns (crash: bool, problems: seq<Problem>, identities: Checks)
    requires before == Merged(prior)
    ensures
      match ReadBucket(suite, v, status)
      case BucketCrash => crash
      case Bucket(p, ids) => !crash && problems == p && identities == Merged(prior + Tagged(ids, status))
  {
    hide Merged, ReadRecords;
    if v.Arr? {
      crash, problems, identities := ReadIdentities(suite, v.items, status, prior, before);
    } else {
      assert prior + Tagged({}, status) == prior;
      crash, problems, identities := false, [NoBucket(status)], before;
    }
  }

  /** Coverage is judged from the identities alone. */
  lemma IdentitiesCover(observed: set<Observation>, mode: string, transport: Transport)
    ensures Covers(observed, mode, transport)
       <==> exists id | id in Merged(observed) :: id.mode == mode && id.transport == transport
    ensures ObservedScenarios(observed, mode)
         == set id | id in Merged(observed) && id.mode == mode && id.transport == OfficialHttp
                     && id.source in {Official, Harness} :: id.scenario
  {
    var ids := Identities(observed);
    if Covers(observed, mode, transport) {
      var o :| o in observed && o.0.mode == mode && o.0.transport == transport;
      assert o.0 in Merged(observed);
    }
    if id :| id in Merged(observed) && id.mode == mode && id.transport == transport {
      var o :| o in observed && o.0 == id;
      assert Covers(observed, mode, transport);
    }
    var seen := set id | id in Merged(observed) && id.mode == mode && id.transport == OfficialHttp
                         && id.source in {Official, Harness} :: id.scenario;
    forall s | s in ObservedScenarios(observed, mode) ensures s in seen {
      var o :| o in observed && o.0.mode == mode && o.0.transport == OfficialHttp && o.0.source in {Official, Harness}
               && o.0.scenario == s;
      assert o.0 in Merged(observed);
    }
    forall s | s in seen ensures s in ObservedScenarios(observed, mode) {
      var id :| id in Merged(observed) && id.mode == mode && id.transport == OfficialHttp
                && id.source in {Official, Harness} && id.scenario == s;
      var o :| o in observed && o.0 == id;
    }
  }

  method CheckMode(suite: Suite, selected: Fields, ghost observed: set<Observation>, identities: Checks, mode: string)
    returns (problems: seq<Problem>)
    requires identities == Merged(observed)
    ensures problems == CoverageProblems(suite, selected, observed, mode)
  {
    IdentitiesCover(observed, mode, Stdio);
    IdentitiesCover(observed, mode, OfficialHttp);
    hide Merged, Covers, ObservedScenarios, RunsCatalog, SetOf;
    problems := Note(!RunsCatalog(suite, selected, mode), IncompleteCatalog(mode));
    var stdio := exists id | id in identities :: id.mode == mode && id.transport == Stdio;
    problems := problems + Note(!stdio, MissingCase(mode, Stdio));
    var http := exists id | id in identities :: id.mode == mode && id.transport == OfficialHttp;
    problems := problems + Note(!http, MissingCase(mode, OfficialHttp));
    var seen := set id | id in identities && id.mode == mode && id.transport == OfficialHttp
                         && id.source in {Official, Harness} :: id.scenario;
    var expected := SetOf(suite.catalog(mode));
    problems := problems + (Note(expected - seen != {}, MissingScenarios(mode, expected - seen))
                            + Note(seen - expected != {}, UnexpectedScenarios(mode, seen - expected)));
  }

  /** The closing checks of a compact baseline, mode by mode. */
  method CheckCoverage(suite: Suite, selected: Fields, ghost observed: set<Observation>, identities: Checks)
    returns (problems: seq<Problem>)
    requires identities == Merged(observed)
    ensures problems == AllCoverageProblems(suite, selected, observed, suite.modes)
  {
    hide Merged, CoverageProblems;
    problems := [];
    var modes := suite.modes;
    for i := 0 to |modes|
      invariant problems == AllCoverageProblems(suite, selected, observed, modes[..i])
    {
      assert modes[..i + 1][..i] == modes[..i];
      var more := CheckMode(suite, selected, observed, identities, modes[i]);
      problems := problems + more;
    }
    assert modes[..|modes|] == modes;
  }

  method ReadCompactReport(suite: Suite, f: Fields)
    returns (crash: bool, problems: seq<Problem>, identities: Checks)
    ensures
      match ReadCompact(suite, f)
      case Crash => crash
      case Reading(p, observed) => !crash && problems == p && identities == Merged(observed)
  {
    hide Merged, HeaderProblems, BothTransports, ReadBucket, AllCoverageProblems, Selected, Texts;
    crash, problems, identities := false, HeaderProblems(suite, f), map[];
    MergedNothing();
    if Get(f, BaselineKind) != Str(COMPACT_KIND) {
      problems := problems + [UnsupportedBaseline];
      return;
    }
    var transports, checks := Get(f, Transports), Get(f, ChecksKey);
    if transports.Arr? && |transports.items| == 2 && exists v | v in transports.items :: !Hashable(v) {
      crash := true;
      return;
    }
    problems := problems + Note(Get(f, RequiredModes) != Texts(suite.modes), WrongModes)
      + Note(!BothTransports(transports), WrongTransports);
    if !checks.Obj? {
      problems := problems + [NoIdentities];
      return;
    }
    ghost var passing := ReadBucket(suite, Get(checks.fields, Passing), Pass);
    ghost var failing := ReadBucket(suite, Get(checks.fields, Failing), Fail);
    var more;
    crash, more, identities := ReadBucketOf(suite, Get(checks.fields, Passing), Pass, {}, identities);
    if crash {
      return;
    }
    problems := problems + more;
    assert {} + Tagged(passing.ids, Pass) == Tagged(passing.ids, Pass);
    crash, more, identities :=
      ReadBucketOf(suite, Get(checks.fields, Failing), Fail, Tagged(passing.ids, Pass), identities);
    if crash {
      return;
    }
    problems := problems + more;
    more := CheckCoverage(suite, Selected(f), Tagged(passing.ids, Pass) + Tagged(failing.ids, Fail), identities);
    problems := problems + more;
  }

  lemma MergedNothing()
    ensures Merged({}) == map[]
  {
    assert Identities({}) == {};
  }

  // ---------------------------------------------------------------- any report

  method RequiredRegressionChecks(suite: Suite, f: Fields)
    returns (crash: bool, problems: seq<Problem>, identities: Checks)
    ensures
      match Read(suite, f)
      case Crash => crash
      case Reading(p, observed) => !crash && problems == p && identities == Merged(observed)
  {
    hide Merged, ReadCompact, HeaderProblems, Selected, ReadModes, CollectCases;
    if Get(f, BaselineKind) != Null {
      crash, problems, identities := ReadCompactReport(suite, f);
      return;
    }
    var list := Get(f, Cases);
    var table := CollectTransportCases(suite, if list.Arr? then list.items else []);
    var more;
    crash, more, identities := ReadRequiredModes(suite, table.cases, Selected(f));
    problems := HeaderProblems(suite, f) + Note(!list.Arr?, NoCases) + table.problems + more;
    ghost var modes := ReadModes(suite, table.cases, Selected(f), suite.modes);
    assert modes.Reading? ==> {} + modes.observed == modes.observed;
  }

  /** The gate from the two reports to the verdict; a report that cannot be hashed raises. */
  method EvaluateRegressionGate(suite: Suite, candidate: Fields, baseline: Fields) returns (r: Option<Verdict>)
    requires Sorts(suite)
    ensures r == Gate(suite, candidate, baseline)
  {
    hide Merged, Read, Judge, Sorts;
    var crash, problems, before := RequiredRegressionChecks(suite, baseline);
    if crash {
      return None;
    }
    var errors := Labelled(Baseline, problems);
    var now;
    crash, problems, now := RequiredRegressionChecks(suite, candidate);
    if crash {
      return None;
    }
    errors := errors + Labelled(Candidate, problems) + AuthComplaints(candidate, baseline);
    var verdict := Evaluate(suite, now, before, errors);
    r := Some(verdict);
  }
}
