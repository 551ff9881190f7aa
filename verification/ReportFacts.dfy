/** What a report without problems is known to contain, whether it is full or compact. */
module ReportFacts {
  import opened JsonValue
  import opened GateRelation
  import opened RegressionReport

  predicate Wellformed(suite: Suite, observed: set<Observation>) {
    forall o | o in observed :: o.0.mode in suite.modes && o.0.checkId != ""
  }

  /** Both transports were observed in this mode, and over official HTTP exactly the catalog. */
  predicate CompleteIn(suite: Suite, observed: set<Observation>, mode: string) {
    Covers(observed, mode, Stdio) && Covers(observed, mode, OfficialHttp)
    && ObservedScenarios(observed, mode) == SetOf(suite.catalog(mode))
  }

  predicate Complete(suite: Suite, observed: set<Observation>) {
    forall mode | mode in suite.modes :: CompleteIn(suite, observed, mode)
  }

  predicate CatalogRun(suite: Suite, f: Fields) {
    forall mode | mode in suite.modes :: RunsCatalog(suite, Selected(f), mode)
  }

  predicate Clean(r: Reading) {
    r.Reading? && r.problems == []
  }

  // ---------------------------------------------------------------- full reports

  predicate From(observed: set<Observation>, mode: string, transport: Transport) {
    forall o | o in observed :: o.0.mode == mode && o.0.transport == transport && o.0.checkId != ""
  }

  lemma CheckFrom(suite: Suite, mode: string, transport: Transport, v: Value)
    requires ReadCheck(suite, mode, transport, v).Good?
    ensures
      var id := ReadCheck(suite, mode, transport, v).value.0;
      id.mode == mode && id.transport == transport && id.checkId != ""
  {
  }

  lemma {:induction false} ChecksFrom(suite: Suite, mode: string, transport: Transport, raw: seq<Value>)
    requires ReadChecks(suite, mode, transport, raw).Reading?
    ensures From(ReadChecks(suite, mode, transport, raw).observed, mode, transport)
    ensures ReadChecks(suite, mode, transport, raw).problems == [] && raw != []
      ==> ReadChecks(suite, mode, transport, raw).observed != {}
  {
    if raw != [] {
      hide ReadCheck;
      ChecksFrom(suite, mode, transport, raw[..|raw| - 1]);
      if ReadCheck(suite, mode, transport, raw[|raw| - 1]).Good? {
        CheckFrom(suite, mode, transport, raw[|raw| - 1]);
      }
    }
  }

  lemma NoScenarioProblems(suite: Suite, mode: string, observed: set<Observation>)
    ensures ScenarioProblems(suite, mode, observed) == []
      <==> ObservedScenarios(observed, mode) == SetOf(suite.catalog(mode))
  {
    var expected, seen := SetOf(suite.catalog(mode)), ObservedScenarios(observed, mode);
    assert expected - seen == {} && seen - expected == {} <==> seen == expected;
  }

  lemma CaseFacts(suite: Suite, cases: map<(string, string), Fields>, mode: string, transport: Transport)
    requires ReadCase(suite, cases, mode, transport).Reading?
    ensures
      var r := ReadCase(suite, cases, mode, transport);
      From(r.observed, mode, transport)
      && (r.problems == [] ==> r.observed != {})
      && (r.problems == [] && transport == OfficialHttp
          ==> ObservedScenarios(r.observed, mode) == SetOf(suite.catalog(mode)))
  {
    var key := (mode, TransportName(transport));
    if key in cases && Get(cases[key], ChecksKey).Arr? && Get(cases[key], ChecksKey).items != [] {
      var raw := Get(cases[key], ChecksKey).items;
      ChecksFrom(suite, mode, transport, raw);
      NoScenarioProblems(suite, mode, ReadChecks(suite, mode, transport, raw).observed);
      hide ReadChecks, ScenarioProblems, ObservedScenarios;
    }
  }

  lemma ModeFacts(suite: Suite, cases: map<(string, string), Fields>, selected: Fields, mode: string)
    requires Clean(ReadMode(suite, cases, selected, mode))
    ensures RunsCatalog(suite, selected, mode)
    ensures CompleteIn(suite, ReadMode(suite, cases, selected, mode).observed, mode)
  {
    var a, b := ReadCase(suite, cases, mode, Stdio), ReadCase(suite, cases, mode, OfficialHttp);
    assert a.Reading? && b.Reading? && a.problems == [] && b.problems == [];
    CaseFacts(suite, cases, mode, Stdio);
    CaseFacts(suite, cases, mode, OfficialHttp);
    hide ReadCase;
    var all := ReadMode(suite, cases, selected, mode).observed;
    assert all == a.observed + b.observed;
    var x :| x in a.observed;
    var y :| y in b.observed;
    assert x in all && y in all;
    assert ObservedScenarios(all, mode) == ObservedScenarios(b.observed, mode);
  }

  lemma ModeFrom(suite: Suite, cases: map<(string, string), Fields>, selected: Fields, mode: string)
    requires ReadMode(suite, cases, selected, mode).Reading?
    ensures forall o | o in ReadMode(suite, cases, selected, mode).observed :: o.0.mode == mode && o.0.checkId != ""
  {
    CaseFacts(suite, cases, mode, Stdio);
    CaseFacts(suite, cases, mode, OfficialHttp);
    hide ReadCase;
  }

  /** Each mode's own reading is part of the whole, and nothing else is. */
  lemma {:induction false} ModesFacts(
      suite: Suite, cases: map<(string, string), Fields>, selected: Fields, modes: seq<string>)
    requires ReadModes(suite, cases, selected, modes).Reading?
    ensures
      var r := ReadModes(suite, cases, selected, modes);
      (forall mode | mode in modes ::
         ReadMode(suite, cases, selected, mode).Reading?
         && ReadMode(suite, cases, selected, mode).observed <= r.observed
         && (r.problems == [] ==> Clean(ReadMode(suite, cases, selected, mode))))
      && forall o | o in r.observed :: o.0.mode in modes && o in ReadMode(suite, cases, selected, o.0.mode).observed
           && o.0.checkId != ""
  {
    if modes != [] {
      var last := modes[|modes| - 1];
      hide ReadMode;
      assert forall mode :: mode in modes <==> mode == last || mode in modes[..|modes| - 1] by {
        assert modes == modes[..|modes| - 1] + [last];
      }
      ModesFacts(suite, cases, selected, modes[..|modes| - 1]);
      ModeFrom(suite, cases, selected, last);
    }
  }

  lemma SupersetComplete(suite: Suite, part: set<Observation>, all: set<Observation>, mode: string)
    requires CompleteIn(suite, part, mode) && part <= all
    requires forall o | o in all && o.0.mode == mode :: o in part
    ensures CompleteIn(suite, all, mode)
  {
    assert ObservedScenarios(all, mode) == ObservedScenarios(part, mode);
  }

  lemma FullFacts(suite: Suite, f: Fields)
    requires Clean(ReadFull(suite, f))
    ensures var r := ReadFull(suite, f);
      Wellformed(suite, r.observed) && Complete(suite, r.observed) && CatalogRun(suite, f)
  {
    var list := Get(f, Cases);
    var cases := CollectCases(suite, if list.Arr? then list.items else []).cases;
    var r := ReadModes(suite, cases, Selected(f), suite.modes);
    ModesFacts(suite, cases, Selected(f), suite.modes);
    assert r.problems == [] && ReadFull(suite, f).observed == r.observed;
    hide ReadModes, ReadMode, CompleteIn, RunsCatalog;
    forall mode | mode in suite.modes
      ensures CompleteIn(suite, r.observed, mode) && RunsCatalog(suite, Selected(f), mode)
    {
      ModeFacts(suite, cases, Selected(f), mode);
      SupersetComplete(suite, ReadMode(suite, cases, Selected(f), mode).observed, r.observed, mode);
    }
  }

  // ---------------------------------------------------------------- compact baselines

  lemma {:induction false} RecordsFacts(suite: Suite, records: seq<Value>)
    requires ReadRecords(suite, records).Bucket?
    ensures forall id | id in ReadRecords(suite, records).ids :: id.mode in suite.modes && id.checkId != ""
  {
    if records != [] {
      RecordsFacts(suite, records[..|records| - 1]);
    }
  }

  /** The coverage checks find nothing exactly when the catalog was run and everything in it observed. */
  lemma {:induction false} CoverageIff(suite: Suite, selected: Fields, observed: set<Observation>, modes: seq<string>)
    ensures AllCoverageProblems(suite, selected, observed, modes) == []
      <==> forall mode | mode in modes :: RunsCatalog(suite, selected, mode) && CompleteIn(suite, observed, mode)
  {
    if modes != [] {
      var last := modes[|modes| - 1];
      assert modes == modes[..|modes| - 1] + [last];
      CoverageIff(suite, selected, observed, modes[..|modes| - 1]);
      NoScenarioProblems(suite, last, observed);
      hide ScenarioProblems, ObservedScenarios, RunsCatalog, Covers;
      assert CoverageProblems(suite, selected, observed, last) == []
        <==> RunsCatalog(suite, selected, last) && CompleteIn(suite, observed, last);
    }
  }

  lemma CompactFacts(suite: Suite, f: Fields)
    requires Clean(ReadCompact(suite, f))
    ensures var r := ReadCompact(suite, f);
      Wellformed(suite, r.observed) && Complete(suite, r.observed) && CatalogRun(suite, f)
      && forall o | o in r.observed :: o.1 != Skip
  {
    var r := ReadCompact(suite, f);
    var checks := Get(f, ChecksKey);
    var passing := ReadBucket(suite, Get(checks.fields, Passing), Pass);
    var failing := ReadBucket(suite, Get(checks.fields, Failing), Fail);
    if Get(checks.fields, Passing).Arr? { RecordsFacts(suite, Get(checks.fields, Passing).items); }
    if Get(checks.fields, Failing).Arr? { RecordsFacts(suite, Get(checks.fields, Failing).items); }
    CoverageIff(suite, Selected(f), r.observed, suite.modes);
    hide ReadRecords, CompleteIn, RunsCatalog, HeaderProblems;
    assert AllCoverageProblems(suite, Selected(f), r.observed, suite.modes) == [];
  }

  /** A report without problems is well-formed, complete, and ran the catalog. */
  lemma CleanFacts(suite: Suite, f: Fields)
    requires Clean(Read(suite, f))
    ensures var r := Read(suite, f);
      Wellformed(suite, r.observed) && Complete(suite, r.observed) && CatalogRun(suite, f)
  {
    hide ReadFull, ReadCompact;
    if Get(f, BaselineKind) != Null {
      CompactFacts(suite, f);
    } else {
      FullFacts(suite, f);
    }
  }
}
