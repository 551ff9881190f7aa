/**
 Which full conformance reports have no problem (scripts/mcp_conformance/run_codex_compliance.py)
 and what is observed in them, said about their cases and checks and not about the loops that
 read them.
 */
module RegressionClean {
  import opened JsonValue
  import opened GateRelation
  import opened RegressionReport
  import opened ReportFacts

  // ---------------------------------------------------------------- one check, by its own fields

  /** A check with a known source and status, a name, and a result that is false exactly for a failure. */
  predicate GoodCheck(v: Value) {
    v.Obj?
    && (Get(v.fields, SourceKey) == Str("official") || Get(v.fields, SourceKey) == Str("harness")
        || Get(v.fields, SourceKey) == Str("supplemental"))
    && Get(v.fields, Name).Str? && Get(v.fields, Name) != Str("")
    && NullOrText(Get(v.fields, Scenario)) && NullOrText(Get(v.fields, CheckId))
    && ((Get(v.fields, StatusKey) == Str("PASS") && Get(v.fields, Success) == Bool(true))
        || (Get(v.fields, StatusKey) == Str("SKIP") && Get(v.fields, Success) == Bool(true))
        || (Get(v.fields, StatusKey) == Str("FAIL") && Get(v.fields, Success) == Bool(false)))
  }

  predicate NullOrText(v: Value) {
    v.Null? || (v.Str? && v.s != "")
  }

  /** The text of a field that may be missing. */
  function TextOf(v: Value): string {
    if v.Str? then v.s else ""
  }

  function StatusText(status: Status): string {
    match status case Pass => "PASS" case Fail => "FAIL" case Skip => "SKIP"
  }

  function SourceText(source: Source): string {
    match source case Official => "official" case Harness => "harness" case Supplemental => "supplemental"
  }

  /**
   What a check of a case says: its source and status by name, its scenario if it has one, and
   as its id the check id, or else its name without an arrival number.
   */
  predicate Says(suite: Suite, mode: string, transport: Transport, v: Value, o: Observation) {
    GoodCheck(v) && o.0.mode == mode && o.0.transport == transport
    && Get(v.fields, SourceKey) == Str(SourceText(o.0.source))
    && o.0.scenario == TextOf(Get(v.fields, Scenario))
    && (if Get(v.fields, CheckId).Str? then o.0.checkId == Get(v.fields, CheckId).s
        else o.0.checkId == StableName(suite, Get(v.fields, Name).s))
    && Get(v.fields, StatusKey) == Str(StatusText(o.1))
  }

  lemma StatusSays(v: Value, status: Status)
    ensures ParseStatus(v) == Some(status) <==> v == Str(StatusText(status))
  {
    assert "PASS"[0] == 'P' && "FAIL"[0] == 'F' && "SKIP"[0] == 'S';
  }

  lemma SourceSays(v: Value, source: Source)
    ensures ParseSource(v) == Some(source) <==> v == Str(SourceText(source))
  {
    assert "official"[0] == 'o' && "harness"[0] == 'h' && "supplemental"[0] == 's';
  }

  lemma GoodCheckReads(suite: Suite, mode: string, transport: Transport, v: Value)
    ensures ReadCheck(suite, mode, transport, v).Good? <==> GoodCheck(v)
  {
    if v.Obj? {
      var status, source := Get(v.fields, StatusKey), Get(v.fields, SourceKey);
      StatusSays(status, Pass);
      StatusSays(status, Fail);
      StatusSays(status, Skip);
      SourceSays(source, Official);
      SourceSays(source, Harness);
      SourceSays(source, Supplemental);
      hide ParseStatus, ParseSource, StableName;
    }
  }

  lemma ReadSays(suite: Suite, mode: string, transport: Transport, v: Value)
    requires ReadCheck(suite, mode, transport, v).Good?
    ensures Says(suite, mode, transport, v, ReadCheck(suite, mode, transport, v).value)
  {
    GoodCheckReads(suite, mode, transport, v);
    var o := ReadCheck(suite, mode, transport, v).value;
    StatusSays(Get(v.fields, StatusKey), o.1);
    SourceSays(Get(v.fields, SourceKey), o.0.source);
    hide GoodCheck, ParseStatus, ParseSource, StableName, StatusText, SourceText;
  }

  lemma SaysOneThing(suite: Suite, mode: string, transport: Transport, v: Value, o: Observation, p: Observation)
    requires Says(suite, mode, transport, v, o) && Says(suite, mode, transport, v, p)
    ensures o == p
  {
    StatusSays(Get(v.fields, StatusKey), o.1);
    StatusSays(Get(v.fields, StatusKey), p.1);
    SourceSays(Get(v.fields, SourceKey), o.0.source);
    SourceSays(Get(v.fields, SourceKey), p.0.source);
    hide GoodCheck, ParseStatus, ParseSource, StableName, StatusText, SourceText;
  }

  /** A check is read exactly as what it says. */
  lemma CheckIff(suite: Suite, mode: string, transport: Transport, v: Value, o: Observation)
    ensures ReadCheck(suite, mode, transport, v) == Good(o) <==> Says(suite, mode, transport, v, o)
  {
    GoodCheckReads(suite, mode, transport, v);
    assert Says(suite, mode, transport, v, o) ==> GoodCheck(v);
    hide ReadCheck, Says, GoodCheck;
    if GoodCheck(v) {
      ReadSays(suite, mode, transport, v);
      if Says(suite, mode, transport, v, o) {
        SaysOneThing(suite, mode, transport, v, o, ReadCheck(suite, mode, transport, v).value);
      }
    }
  }

  // ---------------------------------------------------------------- the checks of one case

  predicate GoodChecks(raw: seq<Value>) {
    forall i | 0 <= i < |raw| :: GoodCheck(raw[i])
  }

  /** Some check of the list says this. */
  predicate SaidIn(suite: Suite, mode: string, transport: Transport, raw: seq<Value>, o: Observation) {
    exists i :: 0 <= i < |raw| && Says(suite, mode, transport, raw[i], o)
  }

  lemma SaidInAppend(suite: Suite, mode: string, transport: Transport, raw: seq<Value>, o: Observation)
    requires raw != []
    ensures SaidIn(suite, mode, transport, raw, o)
       <==> SaidIn(suite, mode, transport, raw[..|raw| - 1], o) || Says(suite, mode, transport, raw[|raw| - 1], o)
  {
    hide Says;
    var front := raw[..|raw| - 1];
    if SaidIn(suite, mode, transport, front, o) {
      var i :| 0 <= i < |front| && Says(suite, mode, transport, front[i], o);
      assert Says(suite, mode, transport, raw[i], o);
    }
    if SaidIn(suite, mode, transport, raw, o) && !Says(suite, mode, transport, raw[|raw| - 1], o) {
      var i :| 0 <= i < |raw| && Says(suite, mode, transport, raw[i], o);
      assert Says(suite, mode, transport, front[i], o);
    }
  }

  lemma GoodChecksAppend(raw: seq<Value>)
    requires raw != []
    ensures GoodChecks(raw) <==> GoodChecks(raw[..|raw| - 1]) && GoodCheck(raw[|raw| - 1])
  {
    hide GoodCheck;
    assert forall i | 0 <= i < |raw| - 1 :: raw[..|raw| - 1][i] == raw[i];
  }

  /** What one more check adds to a reading without problems. */
  lemma ChecksAppend(suite: Suite, mode: string, transport: Transport, raw: seq<Value>)
    requires raw != []
    ensures
      var front, last := ReadChecks(suite, mode, transport, raw[..|raw| - 1]), raw[|raw| - 1];
      var r := ReadChecks(suite, mode, transport, raw);
      (Clean(r) <==> Clean(front) && GoodCheck(last))
      && (Clean(r) ==> forall o :: o in r.observed <==> o in front.observed || Says(suite, mode, transport, last, o))
  {
    var front, last := ReadChecks(suite, mode, transport, raw[..|raw| - 1]), raw[|raw| - 1];
    GoodCheckReads(suite, mode, transport, last);
    hide ReadCheck, GoodCheck, Says;
    if Clean(front) && GoodCheck(last) {
      forall o ensures Says(suite, mode, transport, last, o) <==> ReadCheck(suite, mode, transport, last).value == o {
        CheckIff(suite, mode, transport, last, o);
      }
    }
  }

  /** A case's checks leave no problem exactly if each is good, and then exactly what they say is observed. */
  lemma {:induction false} ChecksCleanIff(suite: Suite, mode: string, transport: Transport, raw: seq<Value>)
    ensures Clean(ReadChecks(suite, mode, transport, raw)) <==> GoodChecks(raw)
    ensures GoodChecks(raw) ==>
      forall o :: o in ReadChecks(suite, mode, transport, raw).observed <==> SaidIn(suite, mode, transport, raw, o)
  {
    if raw != [] {
      ChecksCleanIff(suite, mode, transport, raw[..|raw| - 1]);
      GoodChecksAppend(raw);
      ChecksAppend(suite, mode, transport, raw);
      forall o ensures SaidIn(suite, mode, transport, raw, o)
         <==> SaidIn(suite, mode, transport, raw[..|raw| - 1], o) || Says(suite, mode, transport, raw[|raw| - 1], o)
      {
        SaidInAppend(suite, mode, transport, raw, o);
      }
      hide ReadChecks, GoodChecks, GoodCheck, SaidIn, Says;
    }
  }

  /** The scenarios of a list's checks, but for those of supplemental ones. */
  function ScenariosOf(raw: seq<Value>): set<string> {
    set i | 0 <= i < |raw| && raw[i].Obj?
            && (Get(raw[i].fields, SourceKey) == Str("official") || Get(raw[i].fields, SourceKey) == Str("harness"))
      :: TextOf(Get(raw[i].fields, Scenario))
  }

  lemma ScenariosSaid(suite: Suite, mode: string, raw: seq<Value>, observed: set<Observation>)
    requires GoodChecks(raw) && forall o :: o in observed <==> SaidIn(suite, mode, OfficialHttp, raw, o)
    ensures ObservedScenarios(observed, mode) == ScenariosOf(raw)
  {
    hide GoodCheck, ParseSource;
    forall s | s in ObservedScenarios(observed, mode) ensures s in ScenariosOf(raw) {
      var o :| o in observed && o.0.source in {Official, Harness} && o.0.scenario == s;
      var i :| 0 <= i < |raw| && Says(suite, mode, OfficialHttp, raw[i], o);
      assert GoodCheck(raw[i]);
      assert raw[i].Obj? by { GoodIsObject(raw[i]); }
    }
    forall s | s in ScenariosOf(raw) ensures s in ObservedScenarios(observed, mode) {
      var i :| 0 <= i < |raw| && raw[i].Obj? && TextOf(Get(raw[i].fields, Scenario)) == s
               && (Get(raw[i].fields, SourceKey) == Str("official") || Get(raw[i].fields, SourceKey) == Str("harness"));
      GoodCheckReads(suite, mode, OfficialHttp, raw[i]);
      ReadSays(suite, mode, OfficialHttp, raw[i]);
      var o := ReadCheck(suite, mode, OfficialHttp, raw[i]).value;
      hide ReadCheck;
      assert Says(suite, mode, OfficialHttp, raw[i], o);
      assert SaidIn(suite, mode, OfficialHttp, raw, o);
      assert o.0.source != Supplemental by {
        assert "official"[0] == 'o' && "harness"[0] == 'h' && "supplemental"[0] == 's';
      }
    }
  }

  lemma GoodIsObject(v: Value)
    requires GoodCheck(v)
    ensures v.Obj?
  {
  }

  // ---------------------------------------------------------------- the cases

  /** A case of a required version; cases of other versions are not looked at. */
  predicate Required(suite: Suite, v: Value) {
    v.Obj? && Get(v.fields, Mode).Str? && Get(v.fields, Mode).s in suite.modes
  }

  predicate Placed(suite: Suite, v: Value) {
    Required(suite, v) && Get(v.fields, TransportKey).Str?
  }

  /** Where a required case belongs. */
  function Place(suite: Suite, v: Value): (string, string)
    requires Placed(suite, v)
  {
    (Get(v.fields, Mode).s, Get(v.fields, TransportKey).s)
  }

  predicate IsCase(suite: Suite, v: Value, key: (string, string)) {
    Placed(suite, v) && Place(suite, v) == key
  }

  /** Every case is an object, and those of required versions name a transport, each pair once. */
  predicate GoodList(suite: Suite, list: seq<Value>) {
    (forall i | 0 <= i < |list| :: list[i].Obj? && (Required(suite, list[i]) ==> Placed(suite, list[i])))
    && forall i, j | 0 <= i < j < |list| && Placed(suite, list[i]) :: !IsCase(suite, list[j], Place(suite, list[i]))
  }

  /** The table holds exactly the required cases. */
  predicate Indexes(suite: Suite, list: seq<Value>, cases: map<(string, string), Fields>) {
    (forall i | 0 <= i < |list| && Placed(suite, list[i]) ::
       Place(suite, list[i]) in cases && cases[Place(suite, list[i])] == list[i].fields)
    && forall key | key in cases :: exists i :: 0 <= i < |list| && IsCase(suite, list[i], key)
  }

  lemma IndexesAppend(suite: Suite, list: seq<Value>, cases: map<(string, string), Fields>)
    requires list != [] && Indexes(suite, list[..|list| - 1], cases)
    ensures
      var v := list[|list| - 1];
      (Placed(suite, v) && Place(suite, v) !in cases ==> Indexes(suite, list, cases[Place(suite, v) := v.fields]))
      && (!Placed(suite, v) ==> Indexes(suite, list, cases))
  {
    var n := |list| - 1;
    var v := list[n];
    assert forall i | 0 <= i < n :: list[..n][i] == list[i];
    var more := if Placed(suite, v) then cases[Place(suite, v) := v.fields] else cases;
    hide Placed, Place;
    forall key | key in more ensures exists i :: 0 <= i < |list| && IsCase(suite, list[i], key) {
      if Placed(suite, v) && key == Place(suite, v) {
        assert IsCase(suite, list[n], key);
      } else {
        var i :| 0 <= i < n && IsCase(suite, list[..n][i], key);
        assert IsCase(suite, list[i], key);
      }
    }
  }

  lemma GoodListAppend(suite: Suite, list: seq<Value>, cases: map<(string, string), Fields>)
    requires list != [] && Indexes(suite, list[..|list| - 1], cases)
    ensures
      var n := |list| - 1;
      GoodList(suite, list)
      <==> GoodList(suite, list[..n]) && list[n].Obj? && (Required(suite, list[n]) ==> Placed(suite, list[n]))
           && (Placed(suite, list[n]) ==> Place(suite, list[n]) !in cases)
  {
    hide Placed, Place, Required;
    var n := |list| - 1;
    assert forall i | 0 <= i < n :: list[..n][i] == list[i];
    if Placed(suite, list[n]) && Place(suite, list[n]) in cases {
      var i :| 0 <= i < n && IsCase(suite, list[..n][i], Place(suite, list[n]));
      assert Placed(suite, list[i]) && IsCase(suite, list[n], Place(suite, list[i]));
    }
  }

  lemma {:induction false} CollectCleanIff(suite: Suite, list: seq<Value>)
    ensures CollectCases(suite, list).problems == [] <==> GoodList(suite, list)
    ensures GoodList(suite, list) ==> Indexes(suite, list, CollectCases(suite, list).cases)
  {
    if list != [] {
      var n := |list| - 1;
      CollectCleanIff(suite, list[..n]);
      if GoodList(suite, list[..n]) {
        var cases := CollectCases(suite, list[..n]).cases;
        IndexesAppend(suite, list, cases);
        GoodListAppend(suite, list, cases);
        hide GoodList, Indexes;
      } else {
        assert forall i | 0 <= i < n :: list[..n][i] == list[i];
      }
    }
  }

  // ---------------------------------------------------------------- one case

  function TransportText(transport: Transport): string {
    match transport case Stdio => "stdio" case OfficialHttp => "official-http"
  }

  /** A case has checks, all of them good, and over official HTTP they cover exactly the catalog. */
  ghost predicate GoodCase(suite: Suite, mode: string, transport: Transport, f: Fields) {
    var raw := Get(f, ChecksKey);
    raw.Arr? && raw.items != [] && GoodChecks(raw.items)
    && (transport == OfficialHttp ==> forall s :: s in ScenariosOf(raw.items) <==> s in suite.catalog(mode))
  }

  lemma CaseCleanIff(suite: Suite, cases: map<(string, string), Fields>, mode: string, transport: Transport)
    ensures
      var key := (mode, TransportText(transport));
      Clean(ReadCase(suite, cases, mode, transport)) <==> key in cases && GoodCase(suite, mode, transport, cases[key])
    ensures
      var key := (mode, TransportText(transport));
      key in cases && GoodCase(suite, mode, transport, cases[key]) ==>
        forall o :: o in ReadCase(suite, cases, mode, transport).observed
          <==> SaidIn(suite, mode, transport, Get(cases[key], ChecksKey).items, o)
  {
    var key := (mode, TransportText(transport));
    assert TransportText(transport) == TransportName(transport);
    hide TransportText, TransportName;
    if key in cases && Get(cases[key], ChecksKey).Arr? {
      var raw := Get(cases[key], ChecksKey).items;
      ChecksCleanIff(suite, mode, transport, raw);
      hide ReadChecks, ObservedScenarios, GoodChecks, SaidIn, ScenarioProblems, ScenariosOf;
      if GoodChecks(raw) {
        var observed := ReadChecks(suite, mode, transport, raw).observed;
        if transport == OfficialHttp {
          ScenariosSaid(suite, mode, raw, observed);
        }
        NoScenarioProblems(suite, mode, observed);
        assert ScenariosOf(raw) == SetOf(suite.catalog(mode))
          <==> forall s :: s in ScenariosOf(raw) <==> s in suite.catalog(mode);
      }
    }
  }

  lemma ModeCleanIff(suite: Suite, cases: map<(string, string), Fields>, selected: Fields, mode: string)
    ensures Clean(ReadMode(suite, cases, selected, mode))
      <==> RunsCatalog(suite, selected, mode)
           && Clean(ReadCase(suite, cases, mode, Stdio)) && Clean(ReadCase(suite, cases, mode, OfficialHttp))
    ensures Clean(ReadMode(suite, cases, selected, mode)) ==>
      ReadMode(suite, cases, selected, mode).observed
      == ReadCase(suite, cases, mode, Stdio).observed + ReadCase(suite, cases, mode, OfficialHttp).observed
  {
    hide ReadCase, RunsCatalog;
  }

  lemma {:induction false} ModesCleanIff(
      suite: Suite, cases: map<(string, string), Fields>, selected: Fields, modes: seq<string>)
    ensures Clean(ReadModes(suite, cases, selected, modes))
      <==> forall mode | mode in modes :: Clean(ReadMode(suite, cases, selected, mode))
    ensures Clean(ReadModes(suite, cases, selected, modes)) ==>
      forall o :: o in ReadModes(suite, cases, selected, modes).observed
        <==> exists mode | mode in modes :: o in ReadMode(suite, cases, selected, mode).observed
  {
    if modes != [] {
      hide ReadMode;
      var front, last := modes[..|modes| - 1], modes[|modes| - 1];
      ModesCleanIff(suite, cases, selected, front);
      assert forall mode :: mode in modes <==> mode in front || mode == last by {
        assert modes == front + [last];
      }
    }
  }

  // ---------------------------------------------------------------- the whole report

  predicate GoodHeader(suite: Suite, f: Fields) {
    var version, official := Get(f, VersionCheck), Get(f, OfficialConformance);
    (Get(f, SchemaVersion) == Int(4) || Get(f, SchemaVersion) == Float(4.0))
    && version.Obj? && Get(version.fields, Success) == Bool(true)
    && Get(f, ModernFeatureEnablement) == Bool(true)
    && official.Obj?
    && Get(official.fields, Repository) == Str(suite.repository) && Get(official.fields, GitRef) == Str(suite.gitRef)
    && Get(official.fields, AuthenticationIncluded) == Bool(true) && Get(official.fields, Scenarios).Obj?
  }

  lemma HeaderIff(suite: Suite, f: Fields)
    ensures HeaderProblems(suite, f) == [] <==> GoodHeader(suite, f)
  {
    assert EqualsInt(Get(f, SchemaVersion), SCHEMA_VERSION)
      <==> Get(f, SchemaVersion) == Int(4) || Get(f, SchemaVersion) == Float(4.0);
    hide EqualsInt;
  }

  /** The report says that it ran exactly the catalog of this version, in order. */
  predicate RanCatalog(suite: Suite, f: Fields, mode: string) {
    var official := Get(f, OfficialConformance);
    official.Obj? && Get(official.fields, Scenarios).Obj?
    && var ran := Get(Get(official.fields, Scenarios).fields, Other(mode));
       ran.Arr? && |ran.items| == |suite.catalog(mode)|
       && forall i | 0 <= i < |ran.items| :: ran.items[i] == Str(suite.catalog(mode)[i])
  }

  lemma RanCatalogIff(suite: Suite, f: Fields, mode: string)
    ensures RanCatalog(suite, f, mode) <==> RunsCatalog(suite, Selected(f), mode)
  {
  }

  /** The case of a version and a transport is listed and good. */
  ghost predicate HasCase(suite: Suite, list: seq<Value>, mode: string, transport: Transport) {
    exists i :: 0 <= i < |list| && IsCase(suite, list[i], (mode, TransportText(transport)))
      && GoodCase(suite, mode, transport, list[i].fields)
  }

  /** A full report that is in order: its catalog was run and every required case is there. */
  ghost predicate InOrder(suite: Suite, f: Fields) {
    GoodHeader(suite, f) && Get(f, Cases).Arr? && GoodList(suite, Get(f, Cases).items)
    && forall mode | mode in suite.modes ::
         RanCatalog(suite, f, mode)
         && HasCase(suite, Get(f, Cases).items, mode, Stdio) && HasCase(suite, Get(f, Cases).items, mode, OfficialHttp)
  }

  /** Some check of the case an observation belongs to says so. */
  predicate Listed(suite: Suite, list: seq<Value>, o: Observation) {
    exists i :: 0 <= i < |list| && IsCase(suite, list[i], (o.0.mode, TransportText(o.0.transport)))
      && ListedIn(suite, list[i].fields, o)
  }

  predicate ListedIn(suite: Suite, f: Fields, o: Observation) {
    var raw := Get(f, ChecksKey);
    raw.Arr? && SaidIn(suite, o.0.mode, o.0.transport, raw.items, o)
  }

  lemma IndexedCase(
      suite: Suite, list: seq<Value>, cases: map<(string, string), Fields>, mode: string, transport: Transport)
    requires Indexes(suite, list, cases)
    ensures Clean(ReadCase(suite, cases, mode, transport)) <==> HasCase(suite, list, mode, transport)
  {
    var key := (mode, TransportText(transport));
    CaseCleanIff(suite, cases, mode, transport);
    hide ReadCase, GoodCase, TransportText;
    if key in cases {
      var i :| 0 <= i < |list| && IsCase(suite, list[i], key);
      assert cases[key] == list[i].fields;
    }
  }

  lemma SaidOfCase(suite: Suite, mode: string, transport: Transport, raw: seq<Value>, o: Observation)
    requires SaidIn(suite, mode, transport, raw, o)
    ensures o.0.mode == mode && o.0.transport == transport
  {
  }

  lemma ObservedCase(
      suite: Suite, list: seq<Value>, cases: map<(string, string), Fields>,
      mode: string, transport: Transport, o: Observation)
    requires Indexes(suite, list, cases) && Clean(ReadCase(suite, cases, mode, transport))
    ensures o in ReadCase(suite, cases, mode, transport).observed
      <==> o.0.mode == mode && o.0.transport == transport && Listed(suite, list, o)
  {
    var key := (mode, TransportText(transport));
    CaseCleanIff(suite, cases, mode, transport);
    var i :| 0 <= i < |list| && IsCase(suite, list[i], key);
    assert cases[key] == list[i].fields;
    var raw := Get(cases[key], ChecksKey).items;
    hide ReadCase, SaidIn, TransportText, Placed, Place, ScenariosOf, GoodChecks;
    if o in ReadCase(suite, cases, mode, transport).observed {
      SaidOfCase(suite, mode, transport, raw, o);
      assert ListedIn(suite, list[i].fields, o);
    }
    if o.0.mode == mode && o.0.transport == transport && Listed(suite, list, o) {
      var k :| 0 <= k < |list| && IsCase(suite, list[k], key) && ListedIn(suite, list[k].fields, o);
      assert cases[key] == list[k].fields;
    }
  }

  lemma ModesInOrder(suite: Suite, list: seq<Value>, cases: map<(string, string), Fields>, selected: Fields)
    requires Indexes(suite, list, cases)
    ensures Clean(ReadModes(suite, cases, selected, suite.modes))
      <==> forall mode | mode in suite.modes ::
             RunsCatalog(suite, selected, mode)
             && HasCase(suite, list, mode, Stdio) && HasCase(suite, list, mode, OfficialHttp)
  {
    ModesCleanIff(suite, cases, selected, suite.modes);
    hide ReadModes, ReadMode, HasCase, RunsCatalog, Indexes;
    forall mode | mode in suite.modes
      ensures Clean(ReadMode(suite, cases, selected, mode))
        <==> RunsCatalog(suite, selected, mode)
             && HasCase(suite, list, mode, Stdio) && HasCase(suite, list, mode, OfficialHttp)
    {
      ModeCleanIff(suite, cases, selected, mode);
      IndexedCase(suite, list, cases, mode, Stdio);
      IndexedCase(suite, list, cases, mode, OfficialHttp);
    }
  }

  /** A full report has no problem exactly if it is in order. */
  lemma FullCleanIff(suite: Suite, f: Fields)
    ensures Clean(ReadFull(suite, f)) <==> InOrder(suite, f)
  {
    hide HeaderProblems, GoodHeader, CollectCases, GoodList, Selected, HasCase, RunsCatalog, RanCatalog, ReadModes;
    hide Indexes;
    HeaderIff(suite, f);
    var list := Get(f, Cases);
    var items := if list.Arr? then list.items else [];
    CollectCleanIff(suite, items);
    if GoodList(suite, items) {
      ModesInOrder(suite, items, CollectCases(suite, items).cases, Selected(f));
      forall mode ensures RanCatalog(suite, f, mode) <==> RunsCatalog(suite, Selected(f), mode) {
        RanCatalogIff(suite, f, mode);
      }
    }
  }

  /** What is observed in such a report is exactly what its required cases list. */
  lemma FullObserves(suite: Suite, f: Fields, o: Observation)
    requires Clean(ReadFull(suite, f))
    ensures o in ReadFull(suite, f).observed <==> o.0.mode in suite.modes && Listed(suite, Get(f, Cases).items, o)
  {
    FullCleanIff(suite, f);
    var items := Get(f, Cases).items;
    CollectCleanIff(suite, items);
    var cases := CollectCases(suite, items).cases;
    var selected, mode := Selected(f), o.0.mode;
    assert Clean(ReadModes(suite, cases, selected, suite.modes))
      && ReadFull(suite, f).observed == ReadModes(suite, cases, selected, suite.modes).observed;
    ModesCleanIff(suite, cases, selected, suite.modes);
    hide ReadFull, InOrder, ReadModes, Indexes, Listed, CollectCases, GoodList;
    forall m | m in suite.modes
      ensures o in ReadMode(suite, cases, selected, m).observed <==> o.0.mode == m && Listed(suite, items, o)
    {
      ModeCleanIff(suite, cases, selected, m);
      ObservedCase(suite, items, cases, m, Stdio, o);
      ObservedCase(suite, items, cases, m, OfficialHttp, o);
      hide ReadMode, ReadCase;
    }
  }
}
