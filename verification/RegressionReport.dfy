/**
 Reading conformance reports for the regression gate
 (scripts/mcp_conformance/run_codex_compliance.py): full reports of transport cases and
 compact baselines are both reduced to check identities with their statuses, and everything
 that does not fit is noted as a problem. A lookup of an unhashable value crashes.

 The suite's constants are parameters: the required protocol versions, the scenario catalog
 of each, the pinned repository and revision; likewise `sorted` and `str.isdecimal`.
 */
module RegressionReport {
  import opened JsonValue
  import opened GateRelation

  /** Object keys the gate looks at; modes, as keys of the scenario catalog, are texts. */
  datatype Key =
    | SchemaVersion | VersionCheck | ModernFeatureEnablement | OfficialConformance | Repository | GitRef
    | AuthenticationIncluded | Scenarios | BaselineKind | RequiredModes | Transports | ChecksKey | Passing
    | Failing | Cases | AutomaticAuthRequired | Mode | TransportKey | SourceKey | Scenario | CheckId | Name
    | StatusKey | Success | Other(text: string)

  type Value = Json<Key>
  type Fields = map<Key, Value>

  datatype Suite = Suite(
    modes: seq<string>, shipping: string, catalog: string -> seq<string>,
    repository: string, gitRef: string,
    isDecimal: string -> bool, sorted: set<Identity> -> seq<Identity>)

  const SCHEMA_VERSION := 4
  const COMPACT_KIND := "mcp-conformance-regression-baseline-v1"

  /** One thing wrong with a report. */
  datatype Problem =
    | WrongSchema | NoVersionCheck | ModernFeatureOff | NoMetadata | WrongRepository | WrongRevision
    | NoOAuthScenarios | NoCatalog | UnsupportedBaseline | WrongModes | WrongTransports | NoIdentities
    | NoBucket(status: Status) | MalformedIdentity | DuplicateIdentity
    | NoCases | MalformedCase | DuplicateCase | IncompleteCatalog(mode: string)
    | MissingCase(mode: string, transport: Transport) | NoChecks(mode: string, transport: Transport)
    | MalformedCheck(mode: string, transport: Transport)
    | MissingScenarios(mode: string, scenarios: set<string>) | UnexpectedScenarios(mode: string, scenarios: set<string>)

  type Observation = (Identity, Status)

  function Identities(observed: set<Observation>): set<Identity> {
    set o | o in observed :: o.0
  }

  function StatusesIn(observed: set<Observation>, id: Identity): set<Status> {
    set o | o in observed && o.0 == id :: o.1
  }

  /** The statuses merged under each identity. */
  function Merged(observed: set<Observation>): Checks {
    map id | id in Identities(observed) :: StatusesIn(observed, id)
  }

  datatype Reading = Crash | Reading(problems: seq<Problem>, observed: set<Observation>)

  // ---------------------------------------------------------------- Python's view of values

  function TransportName(t: Transport): string {
    match t case Stdio => "stdio" case OfficialHttp => "official-http"
  }

  function ParseTransport(v: Value): Option<Transport> {
    if v == Str("stdio") then Some(Stdio) else if v == Str("official-http") then Some(OfficialHttp) else None
  }

  function SourceName(s: Source): string {
    match s case Official => "official" case Harness => "harness" case Supplemental => "supplemental"
  }

  function ParseSource(v: Value): Option<Source> {
    if v == Str("official") then Some(Official)
    else if v == Str("harness") then Some(Harness)
    else if v == Str("supplemental") then Some(Supplemental)
    else None
  }

  function ParseStatus(v: Value): Option<Status> {
    if v == Str("PASS") then Some(Pass)
    else if v == Str("FAIL") then Some(Fail)
    else if v == Str("SKIP") then Some(Skip)
    else None
  }

  lemma NamesParse(t: Transport, s: Source)
    ensures ParseTransport(Str(TransportName(t))) == Some(t) && ParseSource(Str(SourceName(s))) == Some(s)
  {
  }

  function SetOf(items: seq<string>): set<string> {
    set s | s in items
  }

  // ---------------------------------------------------------------- the common header

  function Note(bad: bool, problem: Problem): seq<Problem> {
    if bad then [problem] else []
  }

  function HeaderProblems(suite: Suite, f: Fields): seq<Problem> {
    var version, official := Get(f, VersionCheck), Get(f, OfficialConformance);
    Note(!EqualsInt(Get(f, SchemaVersion), SCHEMA_VERSION), WrongSchema)
    + Note(!(version.Obj? && Get(version.fields, Success) == Bool(true)), NoVersionCheck)
    + Note(Get(f, ModernFeatureEnablement) != Bool(true), ModernFeatureOff)
    + if !official.Obj? then [NoMetadata]
      else
        Note(Get(official.fields, Repository) != Str(suite.repository), WrongRepository)
        + Note(Get(official.fields, GitRef) != Str(suite.gitRef), WrongRevision)
        + Note(Get(official.fields, AuthenticationIncluded) != Bool(true), NoOAuthScenarios)
        + Note(!Get(official.fields, Scenarios).Obj?, NoCatalog)
  }

  /** The scenario catalog the report says it ran. */
  function Selected(f: Fields): Fields {
    var official := Get(f, OfficialConformance);
    if official.Obj? && Get(official.fields, Scenarios).Obj? then Get(official.fields, Scenarios).fields else map[]
  }

  predicate RunsCatalog(suite: Suite, selected: Fields, mode: string) {
    Get(selected, Other(mode)) == Texts(suite.catalog(mode))
  }

  /** The scenarios observed over official HTTP in one mode. */
  function ObservedScenarios(observed: set<Observation>, mode: string): set<string> {
    set o | o in observed && o.0.mode == mode && o.0.transport == OfficialHttp && o.0.source in {Official, Harness}
      :: o.0.scenario
  }

  function ScenarioProblems(suite: Suite, mode: string, observed: set<Observation>): seq<Problem> {
    var expected, seen := SetOf(suite.catalog(mode)), ObservedScenarios(observed, mode);
    Note(expected - seen != {}, MissingScenarios(mode, expected - seen))
    + Note(seen - expected != {}, UnexpectedScenarios(mode, seen - expected))
  }

  // ---------------------------------------------------------------- compact baselines

  datatype Parsed<T> = Unparsable | Malformed | Good(value: T)

  function ReadRecord(suite: Suite, v: Value): Parsed<Identity> {
    if !v.Obj? then Malformed
    else
      var mode, transport, source := Get(v.fields, Mode), Get(v.fields, TransportKey), Get(v.fields, SourceKey);
      var scenario, checkId := Get(v.fields, Scenario), Get(v.fields, CheckId);
      if !mode.Str? || mode.s !in suite.modes then Malformed
      else if !Hashable(transport) then Unparsable
      else if ParseTransport(transport).None? then Malformed
      else if !Hashable(source) then Unparsable
      else if ParseSource(source).None? || !scenario.Str? || !checkId.Str? || checkId.s == "" then Malformed
      else
        Good(Identity(mode.s, ParseTransport(transport).value, ParseSource(source).value, scenario.s, checkId.s))
  }

  datatype Bucket = BucketCrash | Bucket(problems: seq<Problem>, ids: set<Identity>)

  function ReadRecords(suite: Suite, records: seq<Value>): Bucket {
    if records == [] then Bucket([], {})
    else
      match ReadRecords(suite, records[..|records| - 1])
      case BucketCrash => BucketCrash
      case Bucket(problems, ids) =>
        match ReadRecord(suite, records[|records| - 1])
        case Unparsable => BucketCrash
        case Malformed => Bucket(problems + [MalformedIdentity], ids)
        case Good(id) =>
          if id in ids then Bucket(problems + [DuplicateIdentity], ids) else Bucket(problems, ids + {id})
  }

  function ReadBucket(suite: Suite, v: Value, status: Status): Bucket {
    if v.Arr? then ReadRecords(suite, v.items) else Bucket([NoBucket(status)], {})
  }

  predicate BothTransports(transports: Value) {
    transports.Arr? && |transports.items| == 2
    && (set v | v in transports.items) == {Str("stdio"), Str("official-http")}
  }

  function Tagged(ids: set<Identity>, status: Status): set<Observation> {
    set id | id in ids :: (id, status)
  }

  predicate Covers(observed: set<Observation>, mode: string, transport: Transport) {
    exists o :: o in observed && o.0.mode == mode && o.0.transport == transport
  }

  function CoverageProblems(suite: Suite, selected: Fields, observed: set<Observation>, mode: string): seq<Problem> {
    Note(!RunsCatalog(suite, selected, mode), IncompleteCatalog(mode))
    + Note(!Covers(observed, mode, Stdio), MissingCase(mode, Stdio))
    + Note(!Covers(observed, mode, OfficialHttp), MissingCase(mode, OfficialHttp))
    + ScenarioProblems(suite, mode, observed)
  }

  function AllCoverageProblems(
      suite: Suite, selected: Fields, observed: set<Observation>, modes: seq<string>): seq<Problem>
  {
    if modes == [] then []
    else
      AllCoverageProblems(suite, selected, observed, modes[..|modes| - 1])
      + CoverageProblems(suite, selected, observed, modes[|modes| - 1])
  }

  function ReadCompact(suite: Suite, f: Fields): Reading {
    var header := HeaderProblems(suite, f);
    var transports, checks := Get(f, Transports), Get(f, ChecksKey);
    if Get(f, BaselineKind) != Str(COMPACT_KIND) then Reading(header + [UnsupportedBaseline], {})
    else if transports.Arr? && |transports.items| == 2 && exists v | v in transports.items :: !Hashable(v) then Crash
    else
      var notes := header
        + Note(Get(f, RequiredModes) != Texts(suite.modes), WrongModes)
        + Note(!BothTransports(transports), WrongTransports);
      if !checks.Obj? then Reading(notes + [NoIdentities], {})
      else
        var passing := ReadBucket(suite, Get(checks.fields, Passing), Pass);
        var failing := ReadBucket(suite, Get(checks.fields, Failing), Fail);
        if passing.BucketCrash? || failing.BucketCrash? then Crash
        else
          var observed := Tagged(passing.ids, Pass) + Tagged(failing.ids, Fail);
          Reading(notes + passing.problems + failing.problems
                    + AllCoverageProblems(suite, Selected(f), observed, suite.modes), observed)
  }

  // ---------------------------------------------------------------- full reports

  datatype CaseTable = CaseTable(problems: seq<Problem>, cases: map<(string, string), Fields>)

  function CollectCases(suite: Suite, list: seq<Value>): CaseTable {
    if list == [] then CaseTable([], map[])
    else
      var t := CollectCases(suite, list[..|list| - 1]);
      var v := list[|list| - 1];
      if !v.Obj? then t.(problems := t.problems + [MalformedCase])
      else
        var mode, transport := Get(v.fields, Mode), Get(v.fields, TransportKey);
        if !mode.Str? || mode.s !in suite.modes then t
        else if !transport.Str? then t.(problems := t.problems + [MalformedCase])
        else if (mode.s, transport.s) in t.cases then t.(problems := t.problems + [DuplicateCase])
        else t.(cases := t.cases[(mode.s, transport.s) := v.fields])
  }

  /** The position of the last '#', or the length when there is none. */
  function LastHash(name: string): (i: nat)
    ensures i <= |name| && (i < |name| ==> name[i] == '#')
    ensures forall j | i < j < |name| :: name[j] != '#'
    ensures i == |name| ==> '#' !in name
  {
    if name == "" then 0
    else if name[|name| - 1] == '#' then |name| - 1
    else
      var i := LastHash(name[..|name| - 1]);
      if i == |name| - 1 then |name| else i
  }

  /** A check name without the arrival number of a repeated observation. */
  function StableName(suite: Suite, name: string): string {
    var i := LastHash(name);
    if 0 < i < |name| && suite.isDecimal(name[i + 1..]) then name[..i] else name
  }

  /** A name that ends in a number sign and an arrival number, after something. */
  predicate Numbered(suite: Suite, name: string, stem: string, number: string) {
    stem != "" && name == stem + "#" + number && '#' !in number && suite.isDecimal(number)
  }

  /** Exactly the arrival number after the last number sign is dropped, and only if there is one. */
  lemma StableNameSpec(suite: Suite, name: string)
    ensures forall stem, number | Numbered(suite, name, stem, number) :: StableName(suite, name) == stem
    ensures StableName(suite, name) == name || exists number :: Numbered(suite, name, StableName(suite, name), number)
  {
    var k := LastHash(name);
    forall stem, number | Numbered(suite, name, stem, number) ensures StableName(suite, name) == stem {
      assert name[|stem|] == '#';
      assert forall j | |stem| < j < |name| :: name[j] == number[j - |stem| - 1];
      assert name[|stem|] in name;
      assert name[k + 1..] == number && name[..k] == stem;
    }
    if StableName(suite, name) != name {
      assert name == name[..k] + "#" + name[k + 1..];
      assert Numbered(suite, name, name[..k], name[k + 1..]);
    }
  }

  function IdentityOf(suite: Suite, mode: string, transport: Transport, f: Fields): Parsed<Identity> {
    var source, scenario, name, checkId := Get(f, SourceKey), Get(f, Scenario), Get(f, Name), Get(f, CheckId);
    if !Hashable(source) then Unparsable
    else if ParseSource(source).None? || !name.Str? || name.s == ""
         || !(scenario.Null? || (scenario.Str? && scenario.s != ""))
         || !(checkId.Null? || (checkId.Str? && checkId.s != "")) then Malformed
    else
      Good(Identity(mode, transport, ParseSource(source).value,
                    if scenario.Str? then scenario.s else "",
                    if checkId.Str? then checkId.s else StableName(suite, name.s)))
  }

  function ReadCheck(suite: Suite, mode: string, transport: Transport, v: Value): Parsed<Observation> {
    if !v.Obj? then Malformed
    else
      match IdentityOf(suite, mode, transport, v.fields)
      case Unparsable => Unparsable
      case Malformed => Malformed
      case Good(id) =>
        var status, success := Get(v.fields, StatusKey), Get(v.fields, Success);
        if !Hashable(status) then Unparsable
        else if ParseStatus(status).None? || success != Bool(ParseStatus(status).value != Fail) then Malformed
        else Good((id, ParseStatus(status).value))
  }

  function ReadChecks(suite: Suite, mode: string, transport: Transport, raw: seq<Value>): Reading {
    if raw == [] then Reading([], {})
    else
      match ReadChecks(suite, mode, transport, raw[..|raw| - 1])
      case Crash => Crash
      case Reading(problems, observed) =>
        match ReadCheck(suite, mode, transport, raw[|raw| - 1])
        case Unparsable => Crash
        case Malformed => Reading(problems + [MalformedCheck(mode, transport)], observed)
        case Good(o) => Reading(problems, observed + {o})
  }

  function ReadCase(suite: Suite, cases: map<(string, string), Fields>, mode: string, transport: Transport): Reading {
    var key := (mode, TransportName(transport));
    if key !in cases then Reading([MissingCase(mode, transport)], {})
    else
      var raw := Get(cases[key], ChecksKey);
      if !raw.Arr? || raw.items == [] then Reading([NoChecks(mode, transport)], {})
      else
        match ReadChecks(suite, mode, transport, raw.items)
        case Crash => Crash
        case Reading(problems, observed) =>
          var more := if transport == OfficialHttp then ScenarioProblems(suite, mode, observed) else [];
          Reading(problems + more, observed)
  }

  function Both(a: Reading, b: Reading): Reading {
    if a.Crash? || b.Crash? then Crash else Reading(a.problems + b.problems, a.observed + b.observed)
  }

  function ReadMode(suite: Suite, cases: map<(string, string), Fields>, selected: Fields, mode: string): Reading {
    Both(Reading(Note(!RunsCatalog(suite, selected, mode), IncompleteCatalog(mode)), {}),
         Both(ReadCase(suite, cases, mode, Stdio), ReadCase(suite, cases, mode, OfficialHttp)))
  }

  function ReadModes(
      suite: Suite, cases: map<(string, string), Fields>, selected: Fields, modes: seq<string>): Reading
  {
    if modes == [] then Reading([], {})
    else Both(ReadModes(suite, cases, selected, modes[..|modes| - 1]),
              ReadMode(suite, cases, selected, modes[|modes| - 1]))
  }

  function ReadFull(suite: Suite, f: Fields): Reading {
    var list := Get(f, Cases);
    var table := CollectCases(suite, if list.Arr? then list.items else []);
    Both(Reading(HeaderProblems(suite, f) + Note(!list.Arr?, NoCases) + table.problems, {}),
         ReadModes(suite, table.cases, Selected(f), suite.modes))
  }

  /** What the gate takes from a report, full or compact. */
  function Read(suite: Suite, f: Fields): Reading {
    if Get(f, BaselineKind) != Null then ReadCompact(suite, f) else ReadFull(suite, f)
  }
}
