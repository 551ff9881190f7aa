/**
 A report that compacts although its compact form fails it: everything the suite asks for was
 observed, and all of it was skipped. There is one for every suite that names its versions once
 and whose scenarios have names.
 */
module SkippedBaseline {
  import opened JsonValue
  import opened Listing
  import opened GateRelation
  import opened RegressionReport
  import opened RegressionGate
  import opened Compaction

  /** Some version is required, none twice, and no scenario is nameless. */
  predicate Sound(suite: Suite) {
    suite.modes != [] && Distinct(suite.modes)
    && forall mode | mode in suite.modes :: forall s | s in suite.catalog(mode) :: s != ""
  }

  // ---------------------------------------------------------------- the report

  function Check(source: Source, scenario: Option<string>): Value {
    Obj(map[SourceKey := Str(SourceName(source)),
            Scenario := if scenario.Some? then Str(scenario.value) else Null,
            CheckId := Str("c"), Name := Str("c"), StatusKey := Str("SKIP"), Success := Bool(true)])
  }

  /** A check of the suite's own and one for each scenario, all skipped. */
  function SkippedChecks(scenarios: seq<string>): seq<Value> {
    if scenarios == [] then [Check(Supplemental, None)]
    else SkippedChecks(scenarios[..|scenarios| - 1]) + [Check(Official, Some(scenarios[|scenarios| - 1]))]
  }

  /** The scenarios a case covers: the catalog over official HTTP, none over stdio. */
  function Covered(suite: Suite, mode: string, transport: Transport): seq<string> {
    if transport == OfficialHttp then suite.catalog(mode) else []
  }

  function CaseFields(suite: Suite, mode: string, transport: Transport): Fields {
    map[Mode := Str(mode), TransportKey := Str(TransportName(transport)),
        ChecksKey := Arr(SkippedChecks(Covered(suite, mode, transport)))]
  }

  function CasesOf(suite: Suite, modes: seq<string>): seq<Value> {
    if modes == [] then []
    else
      var mode := modes[|modes| - 1];
      CasesOf(suite, modes[..|modes| - 1])
        + [Obj(CaseFields(suite, mode, Stdio))] + [Obj(CaseFields(suite, mode, OfficialHttp))]
  }

  function Report(suite: Suite): Fields {
    map[SchemaVersion := Int(SCHEMA_VERSION),
        VersionCheck := Obj(map[Success := Bool(true)]),
        ModernFeatureEnablement := Bool(true),
        AutomaticAuthRequired := Bool(false),
        OfficialConformance := Obj(map[
          Repository := Str(suite.repository), GitRef := Str(suite.gitRef), AuthenticationIncluded := Bool(true),
          Scenarios := Obj(CatalogRun(suite))]),
        Cases := Arr(CasesOf(suite, suite.modes))]
  }

  function CatalogRun(suite: Suite): Fields {
    map key | key in (set mode | mode in suite.modes :: Other(mode)) :: Texts(suite.catalog(key.text))
  }

  // ---------------------------------------------------------------- what is read from a case

  function Skipped(mode: string, transport: Transport, source: Source, scenario: string): Observation {
    (Identity(mode, transport, source, scenario, "c"), Skip)
  }

  function SkippedIn(mode: string, transport: Transport, scenarios: seq<string>): set<Observation> {
    if scenarios == [] then {Skipped(mode, transport, Supplemental, "")}
    else
      SkippedIn(mode, transport, scenarios[..|scenarios| - 1])
        + {Skipped(mode, transport, Official, scenarios[|scenarios| - 1])}
  }

  lemma CheckReads(suite: Suite, mode: string, transport: Transport, source: Source, scenario: Option<string>)
    requires scenario.Some? ==> scenario.value != ""
    ensures ReadCheck(suite, mode, transport, Check(source, scenario))
         == Good(Skipped(mode, transport, source, if scenario.Some? then scenario.value else ""))
  {
    NamesParse(transport, source);
    hide ParseSource, SourceName;
  }

  lemma ChecksAppend(suite: Suite, mode: string, transport: Transport, raw: seq<Value>, v: Value, o: Observation)
    requires ReadChecks(suite, mode, transport, raw).Reading? && ReadCheck(suite, mode, transport, v) == Good(o)
    ensures
      var r := ReadChecks(suite, mode, transport, raw);
      ReadChecks(suite, mode, transport, raw + [v]) == Reading(r.problems, r.observed + {o})
  {
    hide ReadCheck;
    assert (raw + [v])[..|raw|] == raw;
  }

  lemma {:induction false} ChecksRead(suite: Suite, mode: string, transport: Transport, scenarios: seq<string>)
    requires forall s | s in scenarios :: s != ""
    ensures SkippedChecks(scenarios) != []
    ensures ReadChecks(suite, mode, transport, SkippedChecks(scenarios))
         == Reading([], SkippedIn(mode, transport, scenarios))
  {
    hide ReadChecks, ReadCheck, Check, Skipped;
    if scenarios == [] {
      CheckReads(suite, mode, transport, Supplemental, None);
      NoChecksRead(suite, mode, transport);
      ChecksAppend(suite, mode, transport, [], Check(Supplemental, None), Skipped(mode, transport, Supplemental, ""));
      assert [] + [Check(Supplemental, None)] == SkippedChecks([]);
    } else {
      var front, last := scenarios[..|scenarios| - 1], scenarios[|scenarios| - 1];
      assert last in scenarios && forall s | s in front :: s in scenarios;
      ChecksRead(suite, mode, transport, front);
      CheckReads(suite, mode, transport, Official, Some(last));
      ChecksAppend(suite, mode, transport, SkippedChecks(front), Check(Official, Some(last)),
                   Skipped(mode, transport, Official, last));
    }
  }

  lemma NoChecksRead(suite: Suite, mode: string, transport: Transport)
    ensures ReadChecks(suite, mode, transport, []) == Reading([], {})
  {
  }

  /** What was skipped in a case belongs to it and covers exactly its scenarios. */
  lemma {:induction false} SkippedFacts(mode: string, transport: Transport, scenarios: seq<string>)
    ensures forall o | o in SkippedIn(mode, transport, scenarios) ::
      o.1 == Skip && o.0.mode == mode && o.0.transport == transport
    ensures ObservedScenarios(SkippedIn(mode, transport, scenarios), mode)
         == if transport == OfficialHttp then SetOf(scenarios) else {}
  {
    if scenarios == [] {
      assert ObservedScenarios({Skipped(mode, transport, Supplemental, "")}, mode) == {};
    } else {
      var front, last := scenarios[..|scenarios| - 1], scenarios[|scenarios| - 1];
      SkippedFacts(mode, transport, front);
      assert scenarios == front + [last];
      assert SetOf(scenarios) == SetOf(front) + {last};
      ScenarioAdded(SkippedIn(mode, transport, front), Skipped(mode, transport, Official, last), mode);
    }
  }

  lemma ScenarioAdded(observed: set<Observation>, o: Observation, mode: string)
    requires o.0.mode == mode && o.0.source == Official
    ensures ObservedScenarios(observed + {o}, mode)
         == ObservedScenarios(observed, mode) + (if o.0.transport == OfficialHttp then {o.0.scenario} else {})
  {
  }

  // ---------------------------------------------------------------- the cases

  type Table = map<(string, string), Fields>

  function CasesTable(suite: Suite, modes: seq<string>): Table {
    if modes == [] then map[]
    else
      var mode := modes[|modes| - 1];
      CasesTable(suite, modes[..|modes| - 1])
        [(mode, TransportName(Stdio)) := CaseFields(suite, mode, Stdio)]
        [(mode, TransportName(OfficialHttp)) := CaseFields(suite, mode, OfficialHttp)]
  }

  lemma TransportsDiffer()
    ensures TransportName(Stdio) != TransportName(OfficialHttp)
  {
    assert |TransportName(Stdio)| == 5 && |TransportName(OfficialHttp)| == 13;
  }

  lemma {:induction false} TableHolds(suite: Suite, modes: seq<string>, mode: string, transport: Transport)
    ensures
      var key := (mode, TransportName(transport));
      (key in CasesTable(suite, modes) <==> mode in modes)
      && (mode in modes ==> CasesTable(suite, modes)[key] == CaseFields(suite, mode, transport))
  {
    hide CaseFields, TransportName;
    if modes != [] {
      var front, last := modes[..|modes| - 1], modes[|modes| - 1];
      TableHolds(suite, front, mode, transport);
      TransportsDiffer();
      assert mode in modes <==> mode in front || mode == last;
      var before, after := CasesTable(suite, front), CasesTable(suite, modes);
      var key := (mode, TransportName(transport));
      if mode == last {
        assert after[key] == CaseFields(suite, mode, transport);
      } else {
        assert (key in after <==> key in before) && (key in before ==> after[key] == before[key]);
      }
    }
  }

  lemma CollectAppend(suite: Suite, list: seq<Value>, mode: string, transport: Transport, cases: Table)
    requires mode in suite.modes && CollectCases(suite, list) == CaseTable([], cases)
    requires (mode, TransportName(transport)) !in cases
    ensures CollectCases(suite, list + [Obj(CaseFields(suite, mode, transport))])
         == CaseTable([], cases[(mode, TransportName(transport)) := CaseFields(suite, mode, transport)])
  {
    hide TransportName, SkippedChecks;
    var v := Obj(CaseFields(suite, mode, transport));
    assert (list + [v])[..|list|] == list;
  }

  lemma {:induction false} CasesCollected(suite: Suite, modes: seq<string>)
    requires Distinct(modes) && forall mode | mode in modes :: mode in suite.modes
    ensures CollectCases(suite, CasesOf(suite, modes)) == CaseTable([], CasesTable(suite, modes))
  {
    if modes != [] {
      var front, last := modes[..|modes| - 1], modes[|modes| - 1];
      assert modes == front + [last] && last in modes;
      CasesCollected(suite, front);
      TableHolds(suite, front, last, Stdio);
      TableHolds(suite, front, last, OfficialHttp);
      TransportsDiffer();
      hide CollectCases, CaseFields, TransportName;
      var cases := CasesTable(suite, front);
      CollectAppend(suite, CasesOf(suite, front), last, Stdio, cases);
      CollectAppend(suite, CasesOf(suite, front) + [Obj(CaseFields(suite, last, Stdio))], last, OfficialHttp,
                    cases[(last, TransportName(Stdio)) := CaseFields(suite, last, Stdio)]);
    }
  }

  lemma CaseReads(suite: Suite, mode: string, transport: Transport)
    requires Sound(suite) && mode in suite.modes
    ensures ReadCase(suite, CasesTable(suite, suite.modes), mode, transport)
         == Reading([], SkippedIn(mode, transport, Covered(suite, mode, transport)))
  {
    var scenarios := Covered(suite, mode, transport);
    TableHolds(suite, suite.modes, mode, transport);
    ChecksRead(suite, mode, transport, scenarios);
    SkippedFacts(mode, transport, scenarios);
    hide CasesTable, SkippedIn, SkippedChecks, ReadChecks, ObservedScenarios;
    var observed := SkippedIn(mode, transport, scenarios);
    assert transport == OfficialHttp ==> ScenarioProblems(suite, mode, observed) == [];
  }

  // ---------------------------------------------------------------- the whole report

  function AllSkipped(suite: Suite, modes: seq<string>): set<Observation> {
    if modes == [] then {}
    else
      var mode := modes[|modes| - 1];
      AllSkipped(suite, modes[..|modes| - 1])
        + (SkippedIn(mode, Stdio, Covered(suite, mode, Stdio))
           + SkippedIn(mode, OfficialHttp, Covered(suite, mode, OfficialHttp)))
  }

  lemma ModeReads(suite: Suite, selected: Fields, mode: string)
    requires Sound(suite) && mode in suite.modes && RunsCatalog(suite, selected, mode)
    ensures ReadMode(suite, CasesTable(suite, suite.modes), selected, mode)
         == Reading([], SkippedIn(mode, Stdio, Covered(suite, mode, Stdio))
                        + SkippedIn(mode, OfficialHttp, Covered(suite, mode, OfficialHttp)))
  {
    CaseReads(suite, mode, Stdio);
    CaseReads(suite, mode, OfficialHttp);
    hide ReadCase, CasesTable, SkippedIn, RunsCatalog;
    var both := SkippedIn(mode, Stdio, Covered(suite, mode, Stdio))
      + SkippedIn(mode, OfficialHttp, Covered(suite, mode, OfficialHttp));
    assert {} + both == both;
  }

  lemma {:induction false} ModesRead(suite: Suite, selected: Fields, modes: seq<string>)
    requires Sound(suite) && forall mode | mode in modes :: mode in suite.modes && RunsCatalog(suite, selected, mode)
    ensures ReadModes(suite, CasesTable(suite, suite.modes), selected, modes) == Reading([], AllSkipped(suite, modes))
  {
    if modes != [] {
      var front, last := modes[..|modes| - 1], modes[|modes| - 1];
      assert modes == front + [last] && last in modes;
      ModesRead(suite, selected, front);
      ModeReads(suite, selected, last);
      hide ReadMode, CasesTable, SkippedIn, RunsCatalog, Sound;
    }
  }

  lemma ReportFields(suite: Suite)
    ensures
      var f := Report(suite);
      HeaderProblems(suite, f) == [] && Get(f, BaselineKind) == Null && Get(f, AutomaticAuthRequired) == Bool(false)
      && Get(f, Cases) == Arr(CasesOf(suite, suite.modes)) && Selected(f) == CatalogRun(suite)
  {
    hide CasesOf, CatalogRun;
  }

  lemma CatalogRuns(suite: Suite, mode: string)
    requires mode in suite.modes
    ensures RunsCatalog(suite, CatalogRun(suite), mode)
  {
    assert Other(mode) in CatalogRun(suite);
  }

  lemma ReportReads(suite: Suite)
    requires Sound(suite)
    ensures Read(suite, Report(suite)) == Reading([], AllSkipped(suite, suite.modes))
  {
    ReportFields(suite);
    CasesCollected(suite, suite.modes);
    forall mode | mode in suite.modes ensures RunsCatalog(suite, CatalogRun(suite), mode) {
      CatalogRuns(suite, mode);
    }
    ModesRead(suite, CatalogRun(suite), suite.modes);
    hide Report, HeaderProblems, CollectCases, CasesOf, CasesTable, CatalogRun, RunsCatalog, ReadModes, AllSkipped;
    hide Selected, Sound;
    var all := AllSkipped(suite, suite.modes);
    assert {} + all == all;
  }

  lemma {:induction false} SkipsOnly(suite: Suite, modes: seq<string>)
    ensures forall o | o in AllSkipped(suite, modes) :: o.1 == Skip
  {
    if modes != [] {
      var mode := modes[|modes| - 1];
      SkipsOnly(suite, modes[..|modes| - 1]);
      SkippedFacts(mode, Stdio, Covered(suite, mode, Stdio));
      SkippedFacts(mode, OfficialHttp, Covered(suite, mode, OfficialHttp));
    }
  }

  lemma SkipsCoverNothing(suite: Suite, observed: set<Observation>)
    requires suite.modes != [] && forall o | o in observed :: o.1 == Skip
    ensures FailedIn(Merged(observed), suite.shipping) == {} && !CoveredWithoutSkips(suite, observed)
  {
    assert NotSkipped(observed) == {};
    assert suite.modes[0] in suite.modes && !Covers({}, suite.modes[0], Stdio);
    assert forall id | id in Merged(observed) :: Merged(observed)[id] <= {Skip};
  }

  /** For every such suite the report compacts and passes against itself, and fails against its own compact form. */
  lemma CompactFormFailsIt(suite: Suite)
    requires Sorts(suite) && Sound(suite)
    ensures
      var f := Report(suite);
      Compact(suite, f).Ok? && Passes(suite, f, f) && !Passes(suite, f, Compact(suite, f).value)
  {
    ReportReads(suite);
    ReportFields(suite);
    SkipsOnly(suite, suite.modes);
    SkipsCoverNothing(suite, AllSkipped(suite, suite.modes));
    hide Read, Sorts, Report, Merged, CoveredWithoutSkips, FailedIn, CompactForm, Passes, AllSkipped, Selected, Sound;
    CompactionNeedsCoverage(suite, Report(suite));
  }
}
